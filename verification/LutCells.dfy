/** The sixteen cells of a logic element: writing a mask to them and reading it back. */
module LutCells {
  import opened Words
  import opened Frames
  import opened Cells
  import opened LutCodec

  /** Input j of minterm b: `(b >> sigma[j]) & 1`. */
  predicate Input(sigma: seq<nat>, b: nat, j: nat)
    requires IsPerm(sigma) && j < 4
  {
    OfNat(4, b)[sigma[j]]
  }

  /** Which of the eight frames of the element: `((1-f0)<<2) | ((1-f1)<<1) | (1-f2)`. */
  function Pair(f0: bool, f1: bool, f2: bool): nat {
    (if f0 then 0 else 4) + (if f1 then 0 else 2) + (if f2 then 0 else 1)
  }

  /** Which of two neighbouring bytes. */
  function Side(kOdd: bool, f2: bool, f3: bool): nat {
    var da := f3 != !f2;
    if da != kOdd then 1 else 0
  }

  function CellOffset(sigma: seq<nat>, kOdd: bool, b: nat): (d: nat)
    requires IsPerm(sigma)
    ensures d <= 7 * PAIR_SPACING + 1 && d % PAIR_SPACING <= 1
  {
    Pair(Input(sigma, b, 0), Input(sigma, b, 1), Input(sigma, b, 2)) * PAIR_SPACING
    + Side(kOdd, Input(sigma, b, 2), Input(sigma, b, 3))
  }

  function MintermCell(lc: Lut, b: nat): Cell
    requires WellFormed(lc)
  {
    Cell(lc.baseAddr + CellOffset(lc.sigma, lc.kOdd, b), lc.bp)
  }

  lemma SameOffset(sigma: seq<nat>, kOdd: bool, b: nat, c: nat)
    requires IsPerm(sigma)
    requires CellOffset(sigma, kOdd, b) == CellOffset(sigma, kOdd, c)
    ensures forall j :: 0 <= j < 4 ==> Input(sigma, b, j) == Input(sigma, c, j)
  {
  }

  lemma InputsDetermine(sigma: seq<nat>, w: Word, v: Word)
    requires IsPerm(sigma) && |w| == |v| == 4
    requires forall j :: 0 <= j < 4 ==> w[sigma[j]] == v[sigma[j]]
    ensures w == v
  {
    InvertInverse(sigma);
    var q := Invert(sigma);
    InverseIsPerm(sigma, q);
    forall i | 0 <= i < 4 ensures w[i] == v[i] {
      assert sigma[q[i]] == i;
    }
  }

  /** Sixteen minterms, sixteen cells. */
  lemma OffsetInjective(sigma: seq<nat>, kOdd: bool, b: nat, c: nat)
    requires IsPerm(sigma) && b < 16 && c < 16
    requires CellOffset(sigma, kOdd, b) == CellOffset(sigma, kOdd, c)
    ensures b == c
  {
    SameOffset(sigma, kOdd, b, c);
    var w, v := OfNat(4, b), OfNat(4, c);
    forall j | 0 <= j < 4 ensures w[sigma[j]] == v[sigma[j]] {
      assert Input(sigma, b, j) == Input(sigma, c, j);
    }
    InputsDetermine(sigma, w, v);
    ToNatOfNat(4, b);
    ToNatOfNat(4, c);
  }

  // ---- the sixteen cells in numbers ----

  /** The value of input `j` in minterm `b`. */
  function InputValue(lc: Lut, b: nat, j: nat): (v: nat)
    requires WellFormed(lc) && j < 4
    ensures v < 2
  {
    b / Pow2(lc.sigma[j]) % 2
  }

  lemma NatBitNumber(b: nat, s: nat)
    requires s < 4
    ensures NatBit(b, s) <==> b / Pow2(s) % 2 == 1
  {
    match s {
      case 0 =>
      case 1 => assert NatBit(b, 1) == NatBit(b / 2, 0);
      case 2 => assert Pow2(2) == 4 && NatBit(b, 2) == NatBit(b / 2 / 2, 0);
      case _ => assert Pow2(3) == 8 && NatBit(b, 3) == NatBit(b / 2 / 2 / 2, 0);
    }
  }

  lemma InputIs(lc: Lut, b: nat, j: nat)
    requires WellFormed(lc) && j < 4
    ensures InputValue(lc, b, j) == Bit(Input(lc.sigma, b, j))
  {
    NatBitNumber(b, lc.sigma[j]);
  }

  /** The last of the eight pairs, less the pairs of the inputs that are set; then the parity of
      inputs 2 and 3 and of the element picks the byte. */
  function AddrOf(base: int, k: nat, v0: nat, v1: nat, v2: nat, v3: nat): int {
    base + 210 * (7 - 4 * v0 - 2 * v1 - v2) + (1 + v2 + v3 + k) % 2
  }

  lemma CellNumber(lc: Lut, b: nat)
    requires WellFormed(lc) && b < 16
    ensures MintermCell(lc, b).bit == lc.bp
    ensures MintermCell(lc, b).addr == AddrOf(lc.baseAddr, Bit(lc.kOdd),
      InputValue(lc, b, 0), InputValue(lc, b, 1), InputValue(lc, b, 2), InputValue(lc, b, 3))
  {
    InputIs(lc, b, 0);
    InputIs(lc, b, 1);
    InputIs(lc, b, 2);
    InputIs(lc, b, 3);
    PairAndSide(lc.kOdd, Input(lc.sigma, b, 0), Input(lc.sigma, b, 1), Input(lc.sigma, b, 2), Input(lc.sigma, b, 3));
  }

  lemma PairAndSide(kOdd: bool, f0: bool, f1: bool, f2: bool, f3: bool)
    ensures Pair(f0, f1, f2) == 7 - 4 * Bit(f0) - 2 * Bit(f1) - Bit(f2)
    ensures Side(kOdd, f2, f3) == (1 + Bit(f2) + Bit(f3) + Bit(kOdd)) % 2
  {
  }

  /** The minterm of four zeros lies in the last of the eight pairs. */
  lemma MintermZero(lc: Lut)
    requires WellFormed(lc)
    ensures MintermCell(lc, 0) == Cell(lc.baseAddr + 7 * 210 + (if lc.kOdd then 0 else 1), lc.bp)
  {
    CellNumber(lc, 0);
  }

  lemma {:induction false} AddBit(b: nat, s: nat, t: nat)
    requires !NatBit(b, s)
    ensures NatBit(b + Pow2(s), t) <==> s == t || NatBit(b, t)
    decreases s
  {
    if s > 0 {
      assert (b + Pow2(s)) / 2 == b / 2 + Pow2(s - 1) && (b + Pow2(s)) % 2 == b % 2;
      if t > 0 {
        AddBit(b / 2, s - 1, t - 1);
      }
    }
  }

  lemma HalfBelow(m: nat, n: nat)
    ensures m < 2 * n <==> m / 2 < n
    ensures m % 2 == 0 && m < 2 * n ==> m + 1 < 2 * n
  {
  }

  lemma {:induction false} AddBitBound(b: nat, s: nat, width: nat)
    requires !NatBit(b, s) && b < Pow2(width) && s < width
    ensures b + Pow2(s) < Pow2(width)
    decreases s
  {
    HalfBelow(b, Pow2(width - 1));
    if s > 0 {
      AddBitBound(b / 2, s - 1, width - 1);
      HalfBelow(b + Pow2(s), Pow2(width - 1));
    }
  }

  /** The other byte of the pair. */
  function Twin(lc: Lut, a: int): int {
    if (a - lc.baseAddr) % 210 == 0 then a + 1 else a - 1
  }

  lemma OtherParity(n: nat)
    ensures (n + 1) % 2 == 1 - n % 2
  {
  }

  lemma TwinOf(lc: Lut, k: nat, v0: nat, v1: nat, v2: nat, v3: nat)
    ensures Twin(lc, AddrOf(lc.baseAddr, k, v0, v1, v2, v3)) == AddrOf(lc.baseAddr, k, v0, v1, v2, v3 + 1)
  {
    OtherParity(1 + v2 + v3 + k);
    Remainder(7 - 4 * v0 - 2 * v1 - v2, (1 + v2 + v3 + k) % 2);
  }

  lemma Remainder(p: int, q: int)
    requires 0 <= q < 210
    ensures (210 * p + q) % 210 == q
  {
  }

  lemma AddrStep(lc: Lut, k: nat, j: nat, v0: nat, v1: nat, v2: nat, v3: nat, next: int)
    requires match j case 0 => v0 == 0 case 1 => v1 == 0 case 2 => v2 == 0 case _ => v3 == 0
    requires next == match j
      case 0 => AddrOf(lc.baseAddr, k, 1, v1, v2, v3)
      case 1 => AddrOf(lc.baseAddr, k, v0, 1, v2, v3)
      case 2 => AddrOf(lc.baseAddr, k, v0, v1, 1, v3)
      case _ => AddrOf(lc.baseAddr, k, v0, v1, v2, 1)
    ensures var a := AddrOf(lc.baseAddr, k, v0, v1, v2, v3);
      next == match j case 0 => a - 4 * 210 case 1 => a - 2 * 210 case 2 => Twin(lc, a) - 210 case _ => Twin(lc, a)
  {
    TwinOf(lc, k, v0, v1, v2, v3);
  }

  lemma InputStep(lc: Lut, b: nat, j: nat)
    requires WellFormed(lc) && b < 16 && j < 4 && InputValue(lc, b, j) == 0
    ensures b + Pow2(lc.sigma[j]) < 16
    ensures forall i :: 0 <= i < 4 ==>
      InputValue(lc, b + Pow2(lc.sigma[j]), i) == if i == j then 1 else InputValue(lc, b, i)
  {
    NatBitNumber(b, lc.sigma[j]);
    assert Pow2(4) == 16;
    AddBitBound(b, lc.sigma[j], 4);
    forall i | 0 <= i < 4
      ensures InputValue(lc, b + Pow2(lc.sigma[j]), i) == if i == j then 1 else InputValue(lc, b, i)
    {
      AddBit(b, lc.sigma[j], lc.sigma[i]);
      NatBitNumber(b, lc.sigma[i]);
      NatBitNumber(b + Pow2(lc.sigma[j]), lc.sigma[i]);
    }
  }

  /** Setting input 0, 1 or 2 lowers the address by 4, 2 or 1 pair spacings; setting input 2 or 3
      changes the byte of the pair. With `MintermZero` this fixes all sixteen cells. */
  lemma MintermStep(lc: Lut, b: nat, j: nat)
    requires WellFormed(lc) && b < 16 && j < 4 && InputValue(lc, b, j) == 0
    ensures b + Pow2(lc.sigma[j]) < 16
    ensures var a, next := MintermCell(lc, b), MintermCell(lc, b + Pow2(lc.sigma[j]));
      && next.bit == a.bit == lc.bp
      && next.addr == match j
        case 0 => a.addr - 4 * 210
        case 1 => a.addr - 2 * 210
        case 2 => Twin(lc, a.addr) - 210
        case _ => Twin(lc, a.addr)
  {
    InputStep(lc, b, j);
    CellNumber(lc, b);
    CellNumber(lc, b + Pow2(lc.sigma[j]));
    AddrStep(lc, Bit(lc.kOdd), j, InputValue(lc, b, 0), InputValue(lc, b, 1), InputValue(lc, b, 2),
      InputValue(lc, b, 3), MintermCell(lc, b + Pow2(lc.sigma[j])).addr);
  }

  /** `predict_sram`: the cells that a mask flips. */
  function MaskCells(lc: Lut, mask: Word16): set<Cell>
    requires WellFormed(lc)
  {
    CellsBelow(lc, mask, 16)
  }

  function CellsBelow(lc: Lut, mask: Word16, k: nat): set<Cell>
    requires WellFormed(lc) && k <= 16
  {
    set b | 0 <= b < k && mask[b] :: MintermCell(lc, b)
  }

  predicate WindowInside(lc: Lut, size: nat)
    requires WellFormed(lc)
  {
    lc.baseAddr + 7 * PAIR_SPACING + 1 < size
  }

  lemma MaskCellsInside(lc: Lut, mask: Word16, s: Image)
    requires WellFormed(lc) && WindowInside(lc, |s|)
    ensures InImage(s, MaskCells(lc, mask))
  {
  }

  lemma MintermInMask(lc: Lut, mask: Word16, b: nat)
    requires WellFormed(lc) && b < 16
    ensures MintermCell(lc, b) in MaskCells(lc, mask) <==> mask[b]
  {
    if MintermCell(lc, b) in MaskCells(lc, mask) {
      var c :| 0 <= c < 16 && mask[c] && MintermCell(lc, c) == MintermCell(lc, b);
      OffsetInjective(lc.sigma, lc.kOdd, b, c);
    }
  }

  /** Flipping by two masks in turn is flipping by their XOR. */
  lemma MaskCellsXor(lc: Lut, m: Word16, w: Word16)
    requires WellFormed(lc)
    ensures SymDiff(MaskCells(lc, m), MaskCells(lc, w)) == MaskCells(lc, Xor(m, w))
  {
    forall c | c in MaskCells(lc, m) || c in MaskCells(lc, w) || c in MaskCells(lc, Xor(m, w))
      ensures c in SymDiff(MaskCells(lc, m), MaskCells(lc, w)) <==> c in MaskCells(lc, Xor(m, w))
    {
      var b :| 0 <= b < 16 && c == MintermCell(lc, b);
      MintermInMask(lc, m, b);
      MintermInMask(lc, w, b);
      MintermInMask(lc, Xor(m, w), b);
    }
  }

  function PopCount(w: Word): nat {
    if w == [] then 0 else (if w[|w| - 1] then 1 else 0) + PopCount(w[..|w| - 1])
  }

  /** One distinct cell for every set mask bit. */
  lemma {:induction false} CellsBelowCount(lc: Lut, mask: Word16, k: nat)
    requires WellFormed(lc) && k <= 16
    ensures |CellsBelow(lc, mask, k)| == PopCount(mask[..k])
  {
    if k > 0 {
      CellsBelowCount(lc, mask, k - 1);
      assert mask[..k][..k - 1] == mask[..k - 1];
      CellsBelowStep(lc, mask, k - 1);
    }
  }

  lemma CellsBelowStep(lc: Lut, mask: Word16, b: nat)
    requires WellFormed(lc) && b < 16
    ensures MintermCell(lc, b) !in CellsBelow(lc, mask, b)
    ensures mask[b] ==> CellsBelow(lc, mask, b + 1) == CellsBelow(lc, mask, b) + {MintermCell(lc, b)}
    ensures !mask[b] ==> CellsBelow(lc, mask, b + 1) == CellsBelow(lc, mask, b)
  {
    if MintermCell(lc, b) in CellsBelow(lc, mask, b) {
      var c :| 0 <= c < b && mask[c] && MintermCell(lc, c) == MintermCell(lc, b);
      OffsetInjective(lc.sigma, lc.kOdd, b, c);
    }
  }

  /** What `read_mask_at` reports: a cell beyond the image reads as 0. */
  function ReadMask(s: Image, lc: Lut): (m: Word16)
    requires WellFormed(lc)
    ensures forall b :: 0 <= b < 16 ==>
      m[b] == (MintermCell(lc, b).addr < |s| && s[MintermCell(lc, b).addr][lc.bp])
  {
    seq(16, b requires 0 <= b < 16 => MintermCell(lc, b).addr < |s| && s[MintermCell(lc, b).addr][lc.bp])
  }

  /** The independent reader sees exactly what the writer wrote. */
  lemma ReadAfterWrite(s: Image, lc: Lut, mask: Word16)
    requires WellFormed(lc) && WindowInside(lc, |s|)
    ensures ReadMask(XorCells(s, MaskCells(lc, mask)), lc) == Xor(ReadMask(s, lc), mask)
  {
    var r := ReadMask(XorCells(s, MaskCells(lc, mask)), lc);
    forall b | 0 <= b < 16 ensures r[b] == Xor(ReadMask(s, lc), mask)[b] {
      MintermInMask(lc, mask, b);
    }
  }

  /** Any write that misses the element's cells is invisible to its reader. */
  lemma ReadUndisturbed(s: Image, lc: Lut, cs: set<Cell>)
    requires WellFormed(lc)
    requires forall b :: 0 <= b < 16 ==> MintermCell(lc, b) !in cs
    ensures ReadMask(XorCells(s, cs), lc) == ReadMask(s, lc)
  {
    forall b | 0 <= b < 16 ensures ReadMask(XorCells(s, cs), lc)[b] == ReadMask(s, lc)[b] {
      assert MintermCell(lc, b) !in cs;
    }
  }

  /** One call of `lut_apply_mask`, on any descriptor and any mask. */
  datatype Stroke = Stroke(lc: Lut, mask: Word16)

  function StrokeCells(k: Stroke): set<Cell> {
    if WellFormed(k.lc) then MaskCells(k.lc, k.mask) else {}
  }

  /** After any sequence of such calls, even on CRC bytes, the fast repair is the full repair. */
  lemma StrokesFastRefinesSlow(base: Image, ks: seq<Stroke>)
    requires Covers(base) && Consistent(base)
    ensures var s := XorCells(base, Fold(StrokeCells, ks)); RepairSome(s, FoldFrames(StrokeCells, ks)) == Repair(s)
  {
    FastRefinesSlowAfter(base, StrokeCells, ks);
  }

  // ---- lutcodec.c, scan_rbf.py, analyze_iron_transfer.py ----

  /** The address arithmetic that the writer and both readers share. */
  method MintermOffset(lc: Lut, b: nat) returns (d: nat)
    requires WellFormed(lc) && b < 16
    ensures d == CellOffset(lc.sigma, lc.kOdd, b)
  {
    var w := OfNat(4, b);
    var f0, f1, f2, f3 := w[lc.sigma[0]], w[lc.sigma[1]], w[lc.sigma[2]], w[lc.sigma[3]];
    var pair := (if f0 then 0 else 4) + (if f1 then 0 else 2) + (if f2 then 0 else 1);
    var da := if f3 != !f2 then 1 else 0;
    var delta := if lc.kOdd then 1 - da else da;
    d := pair * PAIR_SPACING + delta;
  }

  method LutApplyMask(rbf: array<Byte>, lc: Lut, mask: Word16, dirty: array?<Byte>)
    requires WellFormed(lc) && WindowInside(lc, rbf.Length) && rbf.Length <= U32
    requires dirty != null ==> dirty.Length == BITMAP_BYTES && dirty != rbf
    modifies rbf, if dirty == null then {} else {dirty}
    ensures rbf[..] == XorCells(old(rbf[..]), MaskCells(lc, mask))
    ensures dirty != null ==>
      DirtyFrames(dirty[..]) == DirtyFrames(old(dirty[..])) + FramesOf(MaskCells(lc, mask))
  {
    ghost var was := rbf[..];
    ghost var wasDirty := if dirty == null then {} else DirtyFrames(dirty[..]);
    assert CellsBelow(lc, mask, 0) == {};
    XorNone(was);
    for b := 0 to 16
      invariant rbf[..] == XorCells(was, CellsBelow(lc, mask, b))
      invariant dirty != null ==>
        DirtyFrames(dirty[..]) == wasDirty + FramesOf(CellsBelow(lc, mask, b))
    {
      ghost var done := CellsBelow(lc, mask, b);
      CellsBelowStep(lc, mask, b);
      if mask[b] {
        ghost var here := rbf[..];
        FlipMinterm(rbf, lc, b, dirty);
        assert rbf[..] == XorCells(here, {MintermCell(lc, b)});
        XorOneMore(was, done, MintermCell(lc, b));
        FramesOfMore(done, MintermCell(lc, b));
      }
    }
  }

  method FlipMinterm(rbf: array<Byte>, lc: Lut, b: nat, dirty: array?<Byte>)
    requires WellFormed(lc) && b < 16 && WindowInside(lc, rbf.Length) && rbf.Length <= U32
    requires dirty != null ==> dirty.Length == BITMAP_BYTES && dirty != rbf
    modifies rbf, if dirty == null then {} else {dirty}
    ensures rbf[..] == XorCells(old(rbf[..]), {MintermCell(lc, b)})
    ensures dirty != null ==>
      DirtyFrames(dirty[..]) == DirtyFrames(old(dirty[..])) + Touched(MintermCell(lc, b).addr)
  {
    var d := MintermOffset(lc, b);
    var addr := (lc.baseAddr + d) % U32;
    FlipCell(rbf, addr, lc.bp);
    if dirty != null {
      LcMarkDirty(dirty, addr);
    }
  }

  lemma FramesOfMore(cs: set<Cell>, c: Cell)
    ensures FramesOf(cs + {c}) == FramesOf(cs) + Touched(c.addr)
  {
    assert forall d :: d in cs + {c} <==> d in cs || d == c;
    if InCram(c.addr) {
      assert FrameOf(c.addr) in FramesOf(cs + {c});
    }
  }

  method ReadMaskAt(rbf: Image, lc: Lut) returns (mask: Word16)
    requires WellFormed(lc)
    ensures mask == ReadMask(rbf, lc)
  {
    mask := Zeros(16);
    for b := 0 to 16
      invariant forall c :: 0 <= c < 16 ==> mask[c] == (c < b && ReadMask(rbf, lc)[c])
    {
      var d := MintermOffset(lc, b);
      var addr := lc.baseAddr + d;
      if addr < |rbf| && rbf[addr][lc.bp] {
        mask := Or(mask, OneHot(16, b));
      }
    }
  }

  method PredictCells(lc: Lut, mask: Word16) returns (cells: set<Cell>)
    requires WellFormed(lc)
    ensures cells == MaskCells(lc, mask)
    ensures |cells| == PopCount(mask)
  {
    cells := {};
    assert CellsBelow(lc, mask, 0) == {};
    for b := 0 to 16
      invariant cells == CellsBelow(lc, mask, b)
    {
      CellsBelowStep(lc, mask, b);
      if !mask[b] { continue; }
      var d := MintermOffset(lc, b);
      cells := cells + {Cell(lc.baseAddr + d, lc.bp)};
    }
    CellsBelowCount(lc, mask, 16);
    assert mask[..16] == mask;
  }
}
