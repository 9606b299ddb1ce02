/**
 The canon table: mined per build as the part of a base-to-gold difference that the codec
 does not predict, and checked by rebuilding the gold image from the base.
 */
module Canon {
  import opened Words
  import Crc
  import opened Frames
  import opened Cells

  const PER_BUILD_RANGES: seq<(nat, nat)> := [(0x29, 0x35), (0x49, 0x4B)]

  predicate InPerBuildVariable(a: nat) {
    exists i | 0 <= i < |PER_BUILD_RANGES| :: PER_BUILD_RANGES[i].0 <= a < PER_BUILD_RANGES[i].1
  }

  /** Fourteen bytes of the header: twelve from 41 on, and two from 73 on. */
  lemma PerBuildBytes(a: nat)
    ensures InPerBuildVariable(a) <==> 41 <= a < 41 + 12 || 73 <= a < 73 + 2
  {
    assert PER_BUILD_RANGES[0] == (0x29, 0x35) && PER_BUILD_RANGES[1] == (0x49, 0x4B);
  }

  lemma PerBuildInHeader(a: nat)
    requires InPerBuildVariable(a)
    ensures !InCram(a)
  {
  }

  /** Bytes the gate compares and the table may mention: neither per-build nor CRC. */
  predicate Mineable(a: nat) {
    !InPerBuildVariable(a) && !IsCrcByte(a)
  }

  /** `canon_raw` with per-build and CRC bytes filtered out. */
  function Mined(base: Image, gold: Image, predicted: set<Cell>): set<Cell>
    requires |base| == |gold|
  {
    set c | c in SymDiff(Diff(base, gold), predicted) && Mineable(c.addr)
  }

  /** Predicted and canon cells applied in one XOR, then every frame CRC recomputed. */
  function Rebuild(base: Image, predicted: set<Cell>, canon: set<Cell>): (r: Image)
    requires Covers(base)
    ensures |r| == |base|
  {
    Repair(XorCells(base, SymDiff(predicted, canon)))
  }

  /** Bytes reported by `diff_count`. */
  function DiffBytes(recon: Image, gold: Image): set<nat>
    requires |recon| == |gold|
  {
    set i | 0 <= i < |gold| && recon[i] != gold[i] && !InPerBuildVariable(i)
  }

  // ---- the gate decides exactly the mined set ----

  /** The two candidates agree on every cell the gate can see. */
  predicate SameWhereMineable(s: Image, c: set<Cell>, d: set<Cell>) {
    forall a, p :: 0 <= a < |s| && 0 <= p < 8 && Mineable(a) ==> (Cell(a, p) in c <==> Cell(a, p) in d)
  }

  /** A mineable byte comes out right exactly when the candidate has its mined cells and no others. */
  lemma RebuiltByte(base: Image, gold: Image, predicted: set<Cell>, canon: set<Cell>, a: nat)
    requires Covers(base) && |base| == |gold| && a < |gold| && Mineable(a)
    ensures Rebuild(base, predicted, canon)[a] == gold[a]
      <==> forall p :: 0 <= p < 8 ==> (Cell(a, p) in canon <==> Cell(a, p) in Mined(base, gold, predicted))
  {
    var flips := SymDiff(predicted, canon);
    var r := FlipByte(base[a], flips, a);
    assert Rebuild(base, predicted, canon)[a] == r;
    assert forall p :: 0 <= p < 8 ==> (Cell(a, p) in Diff(base, gold) <==> base[a][p] != gold[a][p]);
    if r == gold[a] {
      forall p | 0 <= p < 8 ensures Cell(a, p) in canon <==> Cell(a, p) in Mined(base, gold, predicted) {
        assert r[p] == gold[a][p];
      }
    }
    if forall p :: 0 <= p < 8 ==> (Cell(a, p) in canon <==> Cell(a, p) in Mined(base, gold, predicted)) {
      forall p | 0 <= p < 8 ensures r[p] == gold[a][p] {
        assert Cell(a, p) in canon <==> Cell(a, p) in Mined(base, gold, predicted);
      }
    }
  }

  /** A rebuilt CRC byte is right as soon as the data of its frame is. */
  lemma RebuiltCrc(r: Image, gold: Image, a: nat)
    requires Covers(r) && |r| == |gold| && Consistent(gold) && IsCrcByte(a)
    requires forall b :: FrameStart(FrameOf(a)) <= b < FrameStart(FrameOf(a)) + DATA_SIZE ==> r[b] == gold[b]
    ensures Repair(r)[a] == gold[a]
  {
    FrameGrid(a);
    SameDataSameCrc(r, gold, FrameOf(a));
    ConsistentByte(gold, a);
  }

  lemma FrameDataMineable(f: nat, b: nat)
    requires CramFrame(f) && FrameStart(f) <= b < FrameStart(f) + DATA_SIZE
    ensures InCram(b) && Mineable(b) && FrameOf(b) == f
  {
    GridFrame(f, b - FrameStart(f));
    if InPerBuildVariable(b) {
      PerBuildInHeader(b);
    }
  }

  lemma AllDataRight(base: Image, gold: Image, predicted: set<Cell>, canon: set<Cell>)
    requires Covers(base) && |base| == |gold| && Consistent(gold)
    requires SameWhereMineable(gold, canon, Mined(base, gold, predicted))
    ensures DiffBytes(Rebuild(base, predicted, canon), gold) == {}
  {
    var s := XorCells(base, SymDiff(predicted, canon));
    var r := Repair(s);
    forall i | 0 <= i < |gold| && !InPerBuildVariable(i) ensures r[i] == gold[i] {
      if IsCrcByte(i) {
        var f := FrameOf(i);
        FrameGrid(i);
        forall b | FrameStart(f) <= b < FrameStart(f) + DATA_SIZE ensures s[b] == gold[b] {
          FrameDataMineable(f, b);
          RebuiltByte(base, gold, predicted, canon, b);
        }
        RebuiltCrc(s, gold, i);
      } else {
        RebuiltByte(base, gold, predicted, canon, i);
      }
    }
  }

  /** Against a gold image with valid CRCs the gate passes a candidate table exactly when it
      agrees with the mined one on every mineable cell: nothing missing, nothing extra. */
  lemma GateDecidesMined(base: Image, gold: Image, predicted: set<Cell>, canon: set<Cell>)
    requires Covers(base) && |base| == |gold| && Consistent(gold)
    ensures DiffBytes(Rebuild(base, predicted, canon), gold) == {}
      <==> SameWhereMineable(gold, canon, Mined(base, gold, predicted))
  {
    if SameWhereMineable(gold, canon, Mined(base, gold, predicted)) {
      AllDataRight(base, gold, predicted, canon);
    }
    var r := Rebuild(base, predicted, canon);
    if DiffBytes(r, gold) == {} {
      forall a, p | 0 <= a < |gold| && 0 <= p < 8 && Mineable(a)
        ensures Cell(a, p) in canon <==> Cell(a, p) in Mined(base, gold, predicted)
      {
        assert a !in DiffBytes(r, gold);
        RebuiltByte(base, gold, predicted, canon, a);
      }
    }
  }

  /** Mining then rebuilding is lossless outside the per-build bytes. */
  lemma MineLossless(base: Image, gold: Image, predicted: set<Cell>)
    requires Covers(base) && |base| == |gold| && Consistent(gold)
    ensures var r := Rebuild(base, predicted, Mined(base, gold, predicted));
      forall i :: 0 <= i < |gold| && !InPerBuildVariable(i) ==> r[i] == gold[i]
  {
    var r := Rebuild(base, predicted, Mined(base, gold, predicted));
    GateDecidesMined(base, gold, predicted, Mined(base, gold, predicted));
    forall i | 0 <= i < |gold| && !InPerBuildVariable(i) ensures r[i] == gold[i] {
      assert i !in DiffBytes(r, gold);
    }
  }

  /** The first control: without canon cells the gate passes exactly when none were mined. */
  lemma NoCanonControl(base: Image, gold: Image, predicted: set<Cell>)
    requires Covers(base) && |base| == |gold| && Consistent(gold) && InImage(gold, predicted)
    ensures DiffBytes(Rebuild(base, predicted, {}), gold) == {} <==> Mined(base, gold, predicted) == {}
  {
    var mined := Mined(base, gold, predicted);
    GateDecidesMined(base, gold, predicted, {});
    if mined != {} {
      var c :| c in mined;
      assert c == Cell(c.addr, c.bit) && c.addr < |gold| && c.bit < 8 && Mineable(c.addr);
    }
  }

  // ---- one wrong cell ----

  /** Two images that differ inside one frame's data by a burst of at most 16 bits, in CRC
      order, have different CRCs for that frame. */
  lemma FrameBurstDetected(s: Image, t: Image, f: nat, k: nat)
    requires Covers(s) && Covers(t) && CramFrame(f)
    requires var m, n := s[FrameStart(f)..FrameStart(f) + DATA_SIZE], t[FrameStart(f)..FrameStart(f) + DATA_SIZE];
      m != n && forall i :: 0 <= i < 8 * DATA_SIZE && !(k <= i < k + 16) ==> Crc.Flat(m)[i] == Crc.Flat(n)[i]
    ensures FrameCrc(s, f) != FrameCrc(t, f)
  {
    var lo, hi := FrameStart(f), FrameStart(f) + DATA_SIZE;
    FrameConstants();
    Crc.BurstDetected(POLY, INIT, s[lo..hi], t[lo..hi], k);
  }

  lemma SameFlatBit(m: seq<Byte>, n: seq<Byte>, i: nat)
    requires i < 8 * |m| && |m| == |n| && m[i / 8][i % 8] == n[i / 8][i % 8]
    ensures Crc.Flat(m)[i] == Crc.Flat(n)[i]
  {
    Crc.FlatIndex(m, i / 8, i % 8);
    Crc.FlatIndex(n, i / 8, i % 8);
  }

  /** One flipped data bit always changes the CRC of its frame. */
  lemma OneBitChangesCrc(s: Image, a: nat, p: nat)
    requires Covers(s) && InCram(a) && !IsCrcByte(a) && p < 8
    ensures FrameCrc(XorCells(s, {Cell(a, p)}), FrameOf(a)) != FrameCrc(s, FrameOf(a))
  {
    var t, f := XorCells(s, {Cell(a, p)}), FrameOf(a);
    FrameGrid(a);
    var lo := FrameStart(f);
    var m, n := t[lo..lo + DATA_SIZE], s[lo..lo + DATA_SIZE];
    assert m[a - lo][p] != n[a - lo][p];
    var k := 8 * (a - lo) + p;
    forall i | 0 <= i < 8 * DATA_SIZE && i != k ensures Crc.Flat(m)[i] == Crc.Flat(n)[i] {
      assert Cell(lo + i / 8, i % 8) != Cell(a, p);
      SameFlatBit(m, n, i);
    }
    FrameBurstDetected(t, s, f, k);
  }

  function CrcBytesOf(f: nat): set<nat> {
    {FrameStart(f) + DATA_SIZE, FrameStart(f) + DATA_SIZE + 1}
  }

  /** Flipping one data bit of a consistent image and repairing shows at that byte and at one or
      both CRC bytes of its frame; outside the CRC-carrying frames it shows at that byte alone. */
  lemma OneBitShows(gold: Image, a: nat, p: nat, i: nat)
    requires Covers(gold) && Consistent(gold) && a < |gold| && p < 8 && !IsCrcByte(a) && i < |gold|
    ensures var r := Repair(XorCells(gold, {Cell(a, p)}));
      && (i == a ==> r[i] != gold[i])
      && (i != a && !(InCram(a) && i in CrcBytesOf(FrameOf(a))) ==> r[i] == gold[i])
  {
    var t := XorCells(gold, {Cell(a, p)});
    if i == a {
      assert t[a][p] != gold[a][p];
    } else {
      XorBytes(gold, {Cell(a, p)}, i);
      if IsCrcByte(i) && !(InCram(a) && i in CrcBytesOf(FrameOf(a))) {
        OtherFrame(a, i);
        forall b | FrameStart(FrameOf(i)) <= b < FrameStart(FrameOf(i)) + DATA_SIZE ensures t[b] == gold[b] {
          FrameGrid(i);
          GridFrame(FrameOf(i), b - FrameStart(FrameOf(i)));
          XorBytes(gold, {Cell(a, p)}, b);
        }
        RebuiltCrc(t, gold, i);
      }
    }
  }

  lemma OtherFrame(a: nat, i: nat)
    requires IsCrcByte(i) && !(InCram(a) && i in CrcBytesOf(FrameOf(a)))
    ensures InCram(a) ==> FrameOf(a) != FrameOf(i)
  {
    FrameGrid(i);
  }

  lemma OneBitCrcShows(gold: Image, a: nat, p: nat)
    requires Covers(gold) && Consistent(gold) && InCram(a) && p < 8 && !IsCrcByte(a)
    ensures exists i :: i in CrcBytesOf(FrameOf(a)) && Repair(XorCells(gold, {Cell(a, p)}))[i] != gold[i]
  {
    var t, f := XorCells(gold, {Cell(a, p)}), FrameOf(a);
    FrameGrid(a);
    OneBitChangesCrc(gold, a, p);
    RepairedFrame(t, f);
    var lo, hi := FrameStart(f) + DATA_SIZE, FrameStart(f) + DATA_SIZE + 1;
    assert gold[lo] == Low(FrameCrc(gold, f)) && gold[hi] == High(FrameCrc(gold, f));
    HalvesDetermine(FrameCrc(t, f), FrameCrc(gold, f));
    assert Repair(t)[lo] != gold[lo] || Repair(t)[hi] != gold[hi];
  }

  lemma HalvesDetermine(c: Word16, d: Word16)
    ensures Low(c) == Low(d) && High(c) == High(d) ==> c == d
  {
    if Low(c) == Low(d) && High(c) == High(d) {
      forall i | 0 <= i < 16 ensures c[i] == d[i] {
        if i < 8 {
          assert Low(c)[i] == Low(d)[i];
        } else {
          assert High(c)[i - 8] == High(d)[i - 8];
        }
      }
    }
  }

  /** A candidate that misses or invents exactly one mineable cell rebuilds the gold image with
      that one bit flipped before the repair, up to per-build bytes. */
  lemma OneWrongCell(base: Image, gold: Image, predicted: set<Cell>, c: Cell, i: nat)
    requires Covers(base) && |base| == |gold| && Consistent(gold)
    requires c.addr < |gold| && c.bit < 8 && Mineable(c.addr)
    requires i < |gold| && !InPerBuildVariable(i)
    ensures Rebuild(base, predicted, SymDiff(Mined(base, gold, predicted), {c}))[i] == Repair(XorCells(gold, {c}))[i]
  {
    var mined := Mined(base, gold, predicted);
    var right := XorCells(base, SymDiff(predicted, mined));
    XorTwice(base, SymDiff(predicted, mined), {c});
    SymDiffAssoc(predicted, mined, {c});
    var s, t := XorCells(right, {c}), XorCells(gold, {c});
    assert Rebuild(base, predicted, SymDiff(mined, {c})) == Repair(s);
    if IsCrcByte(i) {
      var f := FrameOf(i);
      FrameGrid(i);
      forall b | FrameStart(f) <= b < FrameStart(f) + DATA_SIZE ensures s[b] == t[b] {
        FrameDataMineable(f, b);
        RebuiltByte(base, gold, predicted, mined, b);
      }
      SameDataSameCrc(s, t, f);
    } else {
      RebuiltByte(base, gold, predicted, mined, i);
    }
  }

  /** What one wrong cell `c` may do to byte `i`. */
  predicate ShownAt(r: Image, gold: Image, c: Cell, i: nat)
    requires |r| == |gold| && i < |gold|
  {
    && (i == c.addr ==> r[i] != gold[i])
    && (i != c.addr && !(InCram(c.addr) && i in CrcBytesOf(FrameOf(c.addr))) ==> r[i] == gold[i])
  }

  lemma WrongCellByte(base: Image, gold: Image, predicted: set<Cell>, c: Cell, i: nat)
    requires Covers(base) && |base| == |gold| && Consistent(gold)
    requires c.addr < |gold| && c.bit < 8 && Mineable(c.addr) && i < |gold| && !InPerBuildVariable(i)
    ensures var r := Rebuild(base, predicted, SymDiff(Mined(base, gold, predicted), {c}));
      ShownAt(r, gold, c, i)
  {
    OneWrongCell(base, gold, predicted, c, i);
    OneBitShows(gold, c.addr, c.bit, i);
  }

  /** The second control, for every canon cell and also for every invented one: a table wrong in
      one cell of a CRC-carrying frame shows as two or three bytes, elsewhere as one byte. */
  lemma WrongCellControl(base: Image, gold: Image, predicted: set<Cell>, c: Cell)
    requires Covers(base) && |base| == |gold| && Consistent(gold)
    requires c.addr < |gold| && c.bit < 8 && Mineable(c.addr)
    ensures var d := DiffBytes(Rebuild(base, predicted, SymDiff(Mined(base, gold, predicted), {c})), gold);
      if InCram(c.addr)
      then c.addr in d && 2 <= |d| <= 3 && d <= {c.addr} + CrcBytesOf(FrameOf(c.addr))
      else d == {c.addr}
  {
    var r := Rebuild(base, predicted, SymDiff(Mined(base, gold, predicted), {c}));
    WrongCellShows(base, gold, predicted, c);
    if InCram(c.addr) {
      var i := WrongCellCrc(base, gold, predicted, c);
      ShownInCram(r, gold, c, i);
    } else {
      ShownElsewhere(r, gold, c);
    }
  }

  predicate Shown(r: Image, gold: Image, c: Cell)
    requires |r| == |gold|
  {
    forall j | 0 <= j < |gold| && !InPerBuildVariable(j) :: ShownAt(r, gold, c, j)
  }

  lemma WrongCellShows(base: Image, gold: Image, predicted: set<Cell>, c: Cell)
    requires Covers(base) && |base| == |gold| && Consistent(gold)
    requires c.addr < |gold| && c.bit < 8 && Mineable(c.addr)
    ensures Shown(Rebuild(base, predicted, SymDiff(Mined(base, gold, predicted), {c})), gold, c)
  {
    forall j | 0 <= j < |gold| && !InPerBuildVariable(j)
      ensures ShownAt(Rebuild(base, predicted, SymDiff(Mined(base, gold, predicted), {c})), gold, c, j)
    {
      WrongCellByte(base, gold, predicted, c, j);
    }
  }

  lemma WrongCellCrc(base: Image, gold: Image, predicted: set<Cell>, c: Cell) returns (i: nat)
    requires Covers(base) && |base| == |gold| && Consistent(gold)
    requires c.bit < 8 && InCram(c.addr) && Mineable(c.addr)
    ensures i in CrcBytesOf(FrameOf(c.addr)) && i < |gold| && !InPerBuildVariable(i) && i != c.addr
    ensures Rebuild(base, predicted, SymDiff(Mined(base, gold, predicted), {c}))[i] != gold[i]
  {
    OneBitCrcShows(gold, c.addr, c.bit);
    i :| i in CrcBytesOf(FrameOf(c.addr)) && Repair(XorCells(gold, {c}))[i] != gold[i];
    CrcNotPerBuild(c.addr, i);
    OneWrongCell(base, gold, predicted, c, i);
  }

  lemma ShownInCram(r: Image, gold: Image, c: Cell, i: nat)
    requires |r| == |gold| && c.addr < |gold| && InCram(c.addr) && Mineable(c.addr)
    requires Shown(r, gold, c)
    requires i in CrcBytesOf(FrameOf(c.addr)) && i < |gold| && r[i] != gold[i] && !InPerBuildVariable(i) && i != c.addr
    ensures c.addr in DiffBytes(r, gold) && 2 <= |DiffBytes(r, gold)| <= 3
    ensures DiffBytes(r, gold) <= {c.addr} + CrcBytesOf(FrameOf(c.addr))
  {
    var d := DiffBytes(r, gold);
    assert ShownAt(r, gold, c, c.addr);
    forall j | j in d ensures j in {c.addr} + CrcBytesOf(FrameOf(c.addr)) {
      assert ShownAt(r, gold, c, j);
    }
    CountTwoOrThree(d, c.addr, i, CrcBytesOf(FrameOf(c.addr)));
  }

  lemma ShownElsewhere(r: Image, gold: Image, c: Cell)
    requires |r| == |gold| && c.addr < |gold| && !InCram(c.addr) && Mineable(c.addr)
    requires Shown(r, gold, c)
    ensures DiffBytes(r, gold) == {c.addr}
  {
    assert ShownAt(r, gold, c, c.addr);
    forall j | j in DiffBytes(r, gold) ensures j == c.addr {
      assert ShownAt(r, gold, c, j);
    }
  }

  lemma CrcNotPerBuild(a: nat, i: nat)
    requires InCram(a) && i in CrcBytesOf(FrameOf(a))
    ensures InCram(i) && IsCrcByte(i) && !InPerBuildVariable(i)
  {
    FrameGrid(a);
    GridFrame(FrameOf(a), i - FrameStart(FrameOf(a)));
    if InPerBuildVariable(i) {
      PerBuildInHeader(i);
    }
  }

  lemma CountTwoOrThree(d: set<nat>, a: nat, i: nat, crc: set<nat>)
    requires a in d && i in d && a != i && d <= {a} + crc && |crc| <= 2
    ensures 2 <= |d| <= 3
  {
    assert {a, i} <= d;
    CardinalityMonotone({a, i}, d);
    CardinalityMonotone(d, {a} + crc);
    assert |{a} + crc| <= 1 + |crc|;
  }

  lemma CardinalityMonotone(a: set<nat>, b: set<nat>)
    requires a <= b
    ensures |a| <= |b|
  {
    assert b == a + (b - a);
  }
}
