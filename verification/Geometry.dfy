/** Where the cells of different logic elements lie relative to one another. */
module Geometry {
  import opened Words
  import opened Frames
  import opened Cells
  import opened LutCodec
  import opened LutCells

  datatype Le = Le(x: nat, y: nat, n: nat)

  predicate Valid(e: Le) {
    Whitelisted(e.x, e.y, e.n)
  }

  function At(t: Tables, e: Le): (lc: Lut)
    requires TablesOk(t) && Valid(e)
    ensures WellFormed(lc)
  {
    LutAt(t, e.x, e.y, e.n)
  }

  /** Address and bit of minterm b in the chip's 32-bit arithmetic. */
  function ChipCell(lc: Lut, b: nat): Cell
    requires WellFormed(lc)
  {
    Cell((lc.baseAddr + CellOffset(lc.sigma, lc.kOdd, b)) % U32, lc.bp)
  }

  // ---- non-interference that follows from the code alone ----

  lemma NDeltaFacts(n: nat)
    requires ValidN(n)
    ensures -64 <= CramNDelta(n) <= 0 && CramNDelta(n) % 2 == 0
  {
  }

  lemma NDigits(n: nat) returns (h: int, a: int, b: int)
    requires ValidN(n)
    ensures 0 <= h <= 1 && 0 <= a <= 3 && 0 <= b <= 1
    ensures n == 16 * h + 4 * a + 2 * b && CramNDelta(n) == -38 * h - 8 * a - 2 * b
  {
    h, a, b := n / 2 / 8, n / 2 % 8 / 2, n / 2 % 8 % 2;
  }

  lemma DigitsUnique(h: int, a: int, b: int, k: int, c: int, d: int)
    requires 0 <= h <= 1 && 0 <= a <= 3 && 0 <= b <= 1
    requires 0 <= k <= 1 && 0 <= c <= 3 && 0 <= d <= 1
    requires 38 * h + 8 * a + 2 * b == 38 * k + 8 * c + 2 * d
    ensures h == k && a == c && b == d
  {
  }

  lemma NDeltaInjective(n: nat, m: nat)
    requires ValidN(n) && ValidN(m) && CramNDelta(n) == CramNDelta(m)
    ensures n == m
  {
    var h, a, b := NDigits(n);
    var k, c, d := NDigits(m);
    DigitsUnique(h, a, b, k, c, d);
  }

  /** Inside one slot, rows with the same bit position lie, modulo the pair spacing, further
      apart than the two bytes of a pair. */
  lemma RowsApart(slot: nat, g: nat, nd: int, h: nat, md: int, k: int, e: int)
    requires g <= 6 && h <= 6 && (g, nd) != (h, md)
    requires -64 <= nd <= 0 && -64 <= md <= 0 && nd % 2 == 0 && md % 2 == 0
    requires BitPos(slot, g, nd) == BitPos(slot, h, md)
    requires -7 <= k <= 7 && -1 <= e <= 1
    ensures RowOffset(slot, g, nd) - RowOffset(slot, h, md) != PAIR_SPACING * k + e
  {
  }

  lemma OffsetParts(sigma: seq<nat>, kOdd: bool, b: nat) returns (p: int, s: int)
    requires IsPerm(sigma)
    ensures CellOffset(sigma, kOdd, b) == PAIR_SPACING * p + s && 0 <= p <= 7 && 0 <= s <= 1
  {
    p := Pair(Input(sigma, b, 0), Input(sigma, b, 1), Input(sigma, b, 2));
    s := Side(kOdd, Input(sigma, b, 2), Input(sigma, b, 3));
  }

  lemma SmallCongruence(a: int, b: int, r: int, q: int)
    requires -10000 < (a + r) - (b + q) < 10000
    ensures (a % U32 + r) % U32 == (b % U32 + q) % U32 ==> a + r == b + q
  {
  }

  lemma RowInts(e: Le, f: Le)
    requires Valid(e) && Valid(f) && e != f && e.x == f.x && Slot(e.y) == Slot(f.y)
    ensures Group(e.y) <= 6 && Group(f.y) <= 6
    ensures (Group(e.y), CramNDelta(e.n)) != (Group(f.y), CramNDelta(f.n))
    ensures -64 <= CramNDelta(e.n) <= 0 && CramNDelta(e.n) % 2 == 0
    ensures -64 <= CramNDelta(f.n) <= 0 && CramNDelta(f.n) % 2 == 0
  {
    NDeltaFacts(e.n);
    NDeltaFacts(f.n);
    if CramNDelta(e.n) == CramNDelta(f.n) {
      NDeltaInjective(e.n, f.n);
    }
  }

  lemma RowOffsetRange(slot: nat, g: nat, nd: int)
    requires g <= 6 && -64 <= nd <= 0
    ensures -64 <= RowOffset(slot, g, nd) <= 300
  {
  }

  /** Whatever the tables say, two different elements of one column and slot share no cell,
      wrapped rows included. */
  lemma SameSlotDisjoint(t: Tables, e: Le, f: Le, b: nat, c: nat)
    requires TablesOk(t) && Valid(e) && Valid(f) && e != f
    requires e.x == f.x && Slot(e.y) == Slot(f.y)
    ensures ChipCell(At(t, e), b) != ChipCell(At(t, f), c)
  {
    var le, lf := At(t, e), At(t, f);
    if le.bp == lf.bp {
      var p, s := OffsetParts(le.sigma, le.kOdd, b);
      var q, u := OffsetParts(lf.sigma, lf.kOdd, c);
      SameBitApart(t, e, f, p, s, q, u);
    }
  }

  lemma SameBitApart(t: Tables, e: Le, f: Le, p: int, s: int, q: int, u: int)
    requires TablesOk(t) && Valid(e) && Valid(f) && e != f
    requires e.x == f.x && Slot(e.y) == Slot(f.y)
    requires BitPos(Slot(e.y), Group(e.y), CramNDelta(e.n)) == BitPos(Slot(f.y), Group(f.y), CramNDelta(f.n))
    requires 0 <= p <= 7 && 0 <= s <= 1 && 0 <= q <= 7 && 0 <= u <= 1
    ensures (RawBase(t, e.x, e.y, e.n) % U32 + (PAIR_SPACING * p + s)) % U32
      != (RawBase(t, f.x, f.y, f.n) % U32 + (PAIR_SPACING * q + u)) % U32
  {
    var slot, g, nd, h, md := Slot(e.y), Group(e.y), CramNDelta(e.n), Group(f.y), CramNDelta(f.n);
    RowInts(e, f);
    RowsApart(slot, g, nd, h, md, q - p, u - s);
    RowOffsetRange(slot, g, nd);
    RowOffsetRange(slot, h, md);
    NoWrapCollision(t.columnBase[XIndex(e.x)] as int - 136 + t.slotBase[slot],
      RowOffset(slot, g, nd), RowOffset(slot, h, md), PAIR_SPACING * p + s, PAIR_SPACING * q + u);
  }

  lemma NoWrapCollision(origin: int, a: int, b: int, r: nat, q: nat)
    requires -1000 < a < 1000 && -1000 < b < 1000 && r < 2000 && q < 2000
    requires a - b != q - r
    ensures ((origin + a) % U32 + r) % U32 != ((origin + b) % U32 + q) % U32
  {
    SmallCongruence(origin + a, origin + b, r, q);
  }

  // ---- when two elements share no cell ----

  /** Two elements share no cell. */
  ghost predicate Apart(lc: Lut, ld: Lut)
    requires WellFormed(lc) && WellFormed(ld)
  {
    forall b, c :: 0 <= b < 16 && 0 <= c < 16 ==> MintermCell(lc, b) != MintermCell(ld, c)
  }

  /** A distance that two windows of eight byte pairs cannot bridge. */
  predicate Far(d: int) {
    d < -(7 * PAIR_SPACING + 1) || 7 * PAIR_SPACING + 1 < d || 2 <= d % PAIR_SPACING <= PAIR_SPACING - 2
  }

  lemma FarNever(d: int, k: int, e: int)
    requires Far(d) && -7 <= k <= 7 && -1 <= e <= 1
    ensures d != PAIR_SPACING * k + e
  {
  }

  lemma NearAt(d: int) returns (k: int, e: int)
    requires !Far(d)
    ensures -7 <= k <= 7 && -1 <= e <= 1 && d == PAIR_SPACING * k + e
  {
    k := (d + 1) / PAIR_SPACING;
    e := d - PAIR_SPACING * k;
  }

  /** The sixteen cells of an element fill both bytes of all eight pairs. */
  lemma OffsetOnto(sigma: seq<nat>, kOdd: bool, p: nat, s: nat) returns (b: nat)
    requires IsPerm(sigma) && p < 8 && s < 2
    ensures b < 16 && CellOffset(sigma, kOdd, b) == PAIR_SPACING * p + s
  {
    var f0, f1, f2 := p < 4, p % 4 < 2, p % 2 == 0;
    var da := (s == 1) != kOdd;
    var f: Word := [f0, f1, f2, da != !f2];
    b := WithInputs(sigma, f);
    assert Pair(f0, f1, f2) == p && Side(kOdd, f2, f[3]) == s;
  }

  lemma WithInputs(sigma: seq<nat>, f: Word) returns (b: nat)
    requires IsPerm(sigma) && |f| == 4
    ensures b < 16 && forall j :: 0 <= j < 4 ==> Input(sigma, b, j) == f[j]
  {
    InvertInverse(sigma);
    var q := Invert(sigma);
    var w: Word := seq(4, i requires 0 <= i < 4 => f[q[i]]);
    b := ToNat(w);
    OfNatToNat(w);
    ToNatBound(w, 0);
    forall j | 0 <= j < 4 ensures Input(sigma, b, j) == f[j] {
      assert q[sigma[j]] == j;
    }
  }

  /** Exactly when two elements share no cell: other bit positions, or far apart. */
  lemma ApartWhen(lc: Lut, ld: Lut)
    requires WellFormed(lc) && WellFormed(ld)
    ensures Apart(lc, ld) <==> lc.bp != ld.bp || Far(lc.baseAddr - ld.baseAddr)
  {
    var d := lc.baseAddr - ld.baseAddr;
    if Far(d) {
      forall b, c | 0 <= b < 16 && 0 <= c < 16 ensures MintermCell(lc, b) != MintermCell(ld, c) {
        var p, s := OffsetParts(lc.sigma, lc.kOdd, b);
        var q, u := OffsetParts(ld.sigma, ld.kOdd, c);
        FarNever(d, q - p, u - s);
      }
    } else if lc.bp == ld.bp {
      var k, e := NearAt(d);
      var b := OffsetOnto(lc.sigma, lc.kOdd, if k < 0 then -k else 0, if e < 0 then 1 else 0);
      var c := OffsetOnto(ld.sigma, ld.kOdd, if k < 0 then 0 else k, if e < 0 then 0 + (1 + e) else e);
      assert MintermCell(lc, b) == MintermCell(ld, c);
    }
  }

  // ---- what has to be known about the generated tables ----

  /** The sixteen cells lie on data bytes of frames, which may be header frames. */
  predicate WindowOk(t: Tables, e: Le)
    requires TablesOk(t) && Valid(e)
  {
    OnData(RawBase(t, e.x, e.y, e.n))
  }

  predicate OnData(a: int) {
    PREAMBLE <= a && a + 7 * PAIR_SPACING + 1 < CRAM_END && (a - PREAMBLE) % FRAME_SIZE <= DATA_SIZE - 2
  }

  function Row(y: nat, n: nat): int
    requires ValidY(y)
  {
    RowOffset(Slot(y), Group(y), CramNDelta(n))
  }

  predicate SameBit(y: nat, n: nat, z: nat, m: nat)
    requires ValidY(y) && ValidY(z)
  {
    BitPos(Slot(y), Group(y), CramNDelta(n)) == BitPos(Slot(z), Group(z), CramNDelta(m))
  }

  /** Two rows whose origins lie `d` bytes apart have different bit positions or are far apart. */
  predicate RowsClear(y: nat, n: nat, z: nat, m: nat, d: int)
    requires ValidY(y) && ValidY(z)
  {
    SameBit(y, n, z, m) ==> Far(d + Row(y, n) - Row(z, m))
  }

  /** Two slots whose origins lie `d` bytes apart never bring rows of one bit position together. */
  ghost predicate Clear(s: nat, u: nat, d: int) {
    forall y, n, z, m {:trigger RowsClear(y, n, z, m, d)} ::
      ValidY(y) && ValidN(n) && ValidY(z) && ValidN(m) && Slot(y) == s && Slot(z) == u ==> RowsClear(y, n, z, m, d)
  }

  function Origin(t: Tables, i: nat, s: nat): int
    requires TablesShape(t) && i < 4 && s < 3
  {
    (t.columnBase[i] as int) - 136 + t.slotBase[s]
  }

  ghost predicate ClearPair(t: Tables, i: nat, s: nat, j: nat, u: nat)
    requires TablesShape(t) && i < 4 && s < 3 && j < 4 && u < 3
  {
    Clear(s, u, Origin(t, i, s) - Origin(t, j, u))
  }

  ghost predicate Windows(t: Tables)
    requires TablesOk(t)
  {
    forall e: Le :: Valid(e) ==> WindowOk(t, e)
  }

  /** A condition on the twelve sums of a column base and a slot base, and on nothing else. */
  ghost predicate GeometryOk(t: Tables) {
    && TablesOk(t) && Windows(t)
    && (forall i, s, j, u :: 0 <= i < 4 && 0 <= s < 3 && 0 <= j < 4 && 0 <= u < 3 && (i != j || s != u) ==>
      ClearPair(t, i, s, j, u))
  }

  lemma WindowBase(t: Tables, e: Le)
    requires TablesOk(t) && Windows(t) && Valid(e)
    ensures At(t, e).baseAddr == Origin(t, XIndex(e.x), Slot(e.y)) + Row(e.y, e.n)
    ensures At(t, e).bp == BitPos(Slot(e.y), Group(e.y), CramNDelta(e.n))
  {
    assert WindowOk(t, e);
  }

  lemma DifferentApart(t: Tables, e: Le, f: Le)
    requires GeometryOk(t) && Valid(e) && Valid(f) && e != f
    ensures Apart(At(t, e), At(t, f))
  {
    if e.x == f.x && Slot(e.y) == Slot(f.y) {
      SameSlotApart(t, e, f);
    } else {
      OriginsClear(t, e, f);
      ApartWhen(At(t, e), At(t, f));
    }
  }

  lemma SameSlotApart(t: Tables, e: Le, f: Le)
    requires GeometryOk(t) && Valid(e) && Valid(f) && e != f && e.x == f.x && Slot(e.y) == Slot(f.y)
    ensures Apart(At(t, e), At(t, f))
  {
    WindowFits(t, e);
    WindowFits(t, f);
    forall b, c | 0 <= b < 16 && 0 <= c < 16 ensures MintermCell(At(t, e), b) != MintermCell(At(t, f), c) {
      ChipCellInside(At(t, e), b);
      ChipCellInside(At(t, f), c);
      SameSlotDisjoint(t, e, f, b, c);
    }
  }

  lemma ChipCellInside(lc: Lut, b: nat)
    requires WellFormed(lc) && WindowInside(lc, CRAM_END)
    ensures ChipCell(lc, b) == MintermCell(lc, b)
  {
  }

  lemma OriginsClear(t: Tables, e: Le, f: Le)
    requires GeometryOk(t) && Valid(e) && Valid(f) && (e.x != f.x || Slot(e.y) != Slot(f.y))
    ensures At(t, e).bp == At(t, f).bp ==> Far(At(t, e).baseAddr - At(t, f).baseAddr)
  {
    WindowBase(t, e);
    WindowBase(t, f);
    OriginPair(t, e, f);
    RowsFar(t, e, f);
  }

  lemma OriginPair(t: Tables, e: Le, f: Le)
    requires GeometryOk(t) && Valid(e) && Valid(f) && (e.x != f.x || Slot(e.y) != Slot(f.y))
    ensures ClearPair(t, XIndex(e.x), Slot(e.y), XIndex(f.x), Slot(f.y))
  {
    IndexDetermines(e.x, f.x);
  }

  lemma IndexDetermines(x: nat, z: nat)
    requires ValidX(x) && ValidX(z)
    ensures XIndex(x) < 4 && (XIndex(x) == XIndex(z) <==> x == z)
  {
  }

  lemma RowsFar(t: Tables, e: Le, f: Le)
    requires TablesShape(t) && Valid(e) && Valid(f)
    requires ClearPair(t, XIndex(e.x), Slot(e.y), XIndex(f.x), Slot(f.y))
    ensures RowsClear(e.y, e.n, f.y, f.n, Origin(t, XIndex(e.x), Slot(e.y)) - Origin(t, XIndex(f.x), Slot(f.y)))
  {
  }

  ghost predicate AllApart(t: Tables)
    requires TablesOk(t)
  {
    forall e: Le, f: Le {:trigger Apart(At(t, e), At(t, f))} ::
      Valid(e) && Valid(f) && e != f ==> Apart(At(t, e), At(t, f))
  }

  /** The condition assumes no more than it has to: on tables whose windows are in place it holds
      if and only if any two different elements share no cell. */
  lemma GeometryExact(t: Tables)
    requires TablesOk(t) && Windows(t)
    ensures GeometryOk(t) <==> AllApart(t)
  {
    if GeometryOk(t) {
      forall e: Le, f: Le | Valid(e) && Valid(f) && e != f ensures Apart(At(t, e), At(t, f)) {
        DifferentApart(t, e, f);
      }
    }
    if AllApart(t) {
      forall i, s, j, u | 0 <= i < 4 && 0 <= s < 3 && 0 <= j < 4 && 0 <= u < 3 && (i != j || s != u)
        ensures ClearPair(t, i, s, j, u)
      {
        ClearIfApart(t, i, s, j, u);
      }
    }
  }

  lemma ClearIfApart(t: Tables, i: nat, s: nat, j: nat, u: nat)
    requires TablesOk(t) && Windows(t) && i < 4 && s < 3 && j < 4 && u < 3 && (i != j || s != u)
    requires AllApart(t)
    ensures ClearPair(t, i, s, j, u)
  {
    var d := Origin(t, i, s) - Origin(t, j, u);
    forall y, n, z, m {:trigger RowsClear(y, n, z, m, d)} |
      ValidY(y) && ValidN(n) && ValidY(z) && ValidN(m) && Slot(y) == s && Slot(z) == u
      ensures RowsClear(y, n, z, m, d)
    {
      PairFarIfApart(t, i, j, y, n, z, m);
    }
  }

  lemma PairFarIfApart(t: Tables, i: nat, j: nat, y: nat, n: nat, z: nat, m: nat)
    requires TablesOk(t) && Windows(t) && AllApart(t) && i < 4 && j < 4
    requires ValidY(y) && ValidN(n) && ValidY(z) && ValidN(m) && (i != j || Slot(y) != Slot(z))
    ensures RowsClear(y, n, z, m, Origin(t, i, Slot(y)) - Origin(t, j, Slot(z)))
  {
    IndexOf(i);
    IndexOf(j);
    RowsFarIfApart(t, Le(10 + 6 * i, y, n), Le(10 + 6 * j, z, m));
  }

  lemma IndexOf(i: nat)
    requires i < 4
    ensures ValidX(10 + 6 * i) && XIndex(10 + 6 * i) == i
  {
  }

  lemma RowsFarIfApart(t: Tables, e: Le, f: Le)
    requires TablesOk(t) && Windows(t) && Valid(e) && Valid(f) && e != f && AllApart(t)
    ensures RowsClear(e.y, e.n, f.y, f.n, Origin(t, XIndex(e.x), Slot(e.y)) - Origin(t, XIndex(f.x), Slot(f.y)))
  {
    WindowBase(t, e);
    WindowBase(t, f);
    assert Apart(At(t, e), At(t, f));
    ApartWhen(At(t, e), At(t, f));
  }

  lemma WindowFits(t: Tables, e: Le)
    requires GeometryOk(t) && Valid(e)
    ensures At(t, e).baseAddr == RawBase(t, e.x, e.y, e.n)
    ensures WindowInside(At(t, e), CRAM_END)
  {
    assert WindowOk(t, e);
  }

  lemma MintermOnData(t: Tables, e: Le, b: nat)
    requires GeometryOk(t) && Valid(e)
    ensures MintermCell(At(t, e), b).addr < CRAM_END && !IsCrcByte(MintermCell(At(t, e), b).addr)
  {
    WindowFits(t, e);
    var lc := At(t, e);
    var p, s := OffsetParts(lc.sigma, lc.kOdd, b);
    assert WindowOk(t, e);
    SpacingKeepsColumn(lc.baseAddr, p, s);
  }

  lemma SpacingKeepsColumn(a: nat, p: nat, s: nat)
    requires a >= PREAMBLE && p <= 7 && s <= 1 && (a - PREAMBLE) % FRAME_SIZE <= DATA_SIZE - 2
    ensures (a + PAIR_SPACING * p + s - PREAMBLE) % FRAME_SIZE < DATA_SIZE
  {
  }

  // ---- the assumption is met ----

  /** Where slot 0 of each column starts, as the recorded addresses show. */
  function ColumnBase(i: int): nat {
    if i == 0 then 0x13FDA else if i == 1 then 0x2BFC2 else if i == 2 then 0x3671A else 0x4E702
  }

  /** Slot 1 starts 136 bytes before slot 0, as recorded. No recorded address is in slot 2, which
      is put halfway between them. */
  function SlotBase(s: int): nat {
    if s == 0 then 136 else if s == 1 then 0 else 68
  }

  /** Tables, with any permutations, that give the recorded addresses. */
  ghost predicate AsRecorded(t: Tables) {
    && TablesOk(t)
    && forall i, s :: 0 <= i < 4 && 0 <= s < 3 ==> Origin(t, i, s) == ColumnBase(i) - 136 + SlotBase(s)
  }

  const IDENTITY: Byte := PackSigmaInv([0, 1, 2, 3])

  const RECORDED := Tables(seq(4, i => ColumnBase(i)), seq(3, s => SlotBase(s)), seq(1152, _ => IDENTITY))

  /** There are such tables. */
  lemma RecordedTables()
    ensures AsRecorded(RECORDED)
  {
    UnpackPack([0, 1, 2, 3]);
  }

  predicate Gives(t: Tables, e: Le, baseAddr: nat, bp: nat)
    requires TablesOk(t) && Valid(e)
  {
    At(t, e).baseAddr == baseAddr && At(t, e).bp == bp
  }

  /** The addresses and bit positions that the logs record. */
  lemma RecordedElements(t: Tables)
    requires AsRecorded(t)
    ensures Gives(t, Le(22, 12, 4), 0x36693, 3) && Gives(t, Le(16, 21, 0), 0x2BF4C, 0)
    ensures Gives(t, Le(10, 14, 0), 0x13FE7, 3) && Gives(t, Le(28, 17, 0), 0x4E712, 2)
  {
    assert Origin(t, 2, 1) == 0x36692 && Origin(t, 1, 1) == 0x2BF3A;
    assert Origin(t, 0, 0) == 0x13FDA && Origin(t, 3, 0) == 0x4E702;
  }

  /** Every row stays inside the data bytes of a frame: the wrap cases exist for this. */
  lemma RowColumns(s: nat, g: nat, nd: int)
    requires s < 3 && g <= 6 && (s != 1 ==> g <= 5) && -64 <= nd <= 0
    ensures 0 <= 24 + SlotBase(s) + RowOffset(s, g, nd) <= DATA_SIZE - 2
  {
  }

  /** Rows of one bit position in different slots of a column are 2 to 208 bytes apart. */
  lemma SlotsFar(s: nat, g: nat, nd: int, u: nat, h: nat, md: int)
    requires s < 3 && u < 3 && s != u && g <= 6 && h <= 6 && (s != 1 ==> g <= 5) && (u != 1 ==> h <= 5)
    requires -64 <= nd <= 0 && -64 <= md <= 0 && BitPos(s, g, nd) == BitPos(u, h, md)
    ensures Far((SlotBase(s) as int) - SlotBase(u) + RowOffset(s, g, nd) - RowOffset(u, h, md))
  {
    var d := (SlotBase(s) as int) - SlotBase(u) + RowOffset(s, g, nd) - RowOffset(u, h, md);
    assert 2 <= d <= 208 || -208 <= d <= -2;
  }

  function Distance(i: nat, s: nat, j: nat, u: nat): int {
    (ColumnBase(i) as int) - ColumnBase(j) + SlotBase(s) - SlotBase(u)
  }

  /** In different columns any two rows are frames apart. */
  lemma ColumnsFar(i: nat, j: nat, c: int, d: int)
    requires i < 4 && j < 4 && i != j && -FRAME_SIZE < c < FRAME_SIZE && -FRAME_SIZE < d < FRAME_SIZE
    ensures Far((ColumnBase(i) as int) - ColumnBase(j) + c - d)
  {
  }

  lemma RecordedRows(i: nat, j: nat, y: nat, n: nat, z: nat, m: nat)
    requires i < 4 && j < 4 && ValidY(y) && ValidN(n) && ValidY(z) && ValidN(m) && (i != j || Slot(y) != Slot(z))
    ensures RowsClear(y, n, z, m, Distance(i, Slot(y), j, Slot(z)))
  {
    RowFacts(y);
    RowFacts(z);
    NDeltaFacts(n);
    NDeltaFacts(m);
    if i != j {
      RowColumns(Slot(y), Group(y), CramNDelta(n));
      RowColumns(Slot(z), Group(z), CramNDelta(m));
      ColumnsFar(i, j, SlotBase(Slot(y)) + Row(y, n), SlotBase(Slot(z)) + Row(z, m));
    } else if SameBit(y, n, z, m) {
      SlotsFar(Slot(y), Group(y), CramNDelta(n), Slot(z), Group(z), CramNDelta(m));
    }
  }

  lemma DistanceClear(i: nat, s: nat, j: nat, u: nat, d: int)
    requires i < 4 && s < 3 && j < 4 && u < 3 && (i != j || s != u) && d == Distance(i, s, j, u)
    ensures Clear(s, u, d)
  {
    forall y, n, z, m {:trigger RowsClear(y, n, z, m, d)} |
      ValidY(y) && ValidN(n) && ValidY(z) && ValidN(m) && Slot(y) == s && Slot(z) == u
      ensures RowsClear(y, n, z, m, d)
    {
      RecordedRows(i, j, y, n, z, m);
    }
  }

  lemma RecordedWindow(t: Tables, e: Le)
    requires AsRecorded(t) && Valid(e)
    ensures WindowOk(t, e)
  {
    RowFacts(e.y);
    NDeltaFacts(e.n);
    RowColumns(Slot(e.y), Group(e.y), CramNDelta(e.n));
    assert RawBase(t, e.x, e.y, e.n) == Origin(t, XIndex(e.x), Slot(e.y)) + Row(e.y, e.n);
    OnColumn(XIndex(e.x), 24 + SlotBase(Slot(e.y)) + Row(e.y, e.n));
  }

  lemma OnColumn(i: nat, c: int)
    requires i < 4 && 0 <= c <= DATA_SIZE - 2
    ensures OnData(ColumnBase(i) - 160 + c)
  {
  }

  /** The recorded addresses meet the assumption, whatever the permutations. */
  lemma RecordedGeometry(t: Tables)
    requires AsRecorded(t)
    ensures GeometryOk(t)
  {
    forall e: Le | Valid(e) ensures WindowOk(t, e) {
      RecordedWindow(t, e);
    }
    forall i, s, j, u | 0 <= i < 4 && 0 <= s < 3 && 0 <= j < 4 && 0 <= u < 3 && (i != j || s != u)
      ensures ClearPair(t, i, s, j, u)
    {
      RecordedPair(t, i, s, j, u);
    }
  }

  lemma RecordedPair(t: Tables, i: nat, s: nat, j: nat, u: nat)
    requires AsRecorded(t) && i < 4 && s < 3 && j < 4 && u < 3 && (i != j || s != u)
    ensures ClearPair(t, i, s, j, u)
  {
    RecordedDistance(t, i, s, j, u);
    DistanceClear(i, s, j, u, Distance(i, s, j, u));
    ClearAt(t, i, s, j, u, Distance(i, s, j, u));
  }

  lemma RecordedDistance(t: Tables, i: nat, s: nat, j: nat, u: nat)
    requires AsRecorded(t) && i < 4 && s < 3 && j < 4 && u < 3
    ensures Origin(t, i, s) - Origin(t, j, u) == Distance(i, s, j, u)
  {
    assert Origin(t, i, s) == ColumnBase(i) - 136 + SlotBase(s) && Origin(t, j, u) == ColumnBase(j) - 136 + SlotBase(u);
  }

  lemma ClearAt(t: Tables, i: nat, s: nat, j: nat, u: nat, d: int)
    requires TablesShape(t) && i < 4 && s < 3 && j < 4 && u < 3
    requires d == Origin(t, i, s) - Origin(t, j, u) && Clear(s, u, d)
    ensures ClearPair(t, i, s, j, u)
  {
  }

  // ---- host generator and chip ----

  /** `compute_foff_fb8_group` before the divisions; Python's `%` and `//` floor. */
  function HostVal(t: Tables, x: nat, y: nat, n: nat): int
    requires TablesOk(t) && Whitelisted(x, y, n)
  {
    var addrAdj :=
      if Slot(y) == 1 && Group(y) == 0 then (if 24 + CramNDelta(n) <= 0 then 206 else 0)
      else if Slot(y) == 1 && 24 + Group(y) * 3 + CramNDelta(n) < 0 then 207 else 0;
    var offset := t.slotBase[Slot(y)] + Group(y) * 3 + (if Slot(y) == 0 && Group(y) > 0 then 1 else 0);
    t.columnBase[XIndex(x)] - 168 + offset + CramNDelta(n) + addrAdj
  }

  /** The table entry the host computed for an element is indexed by the frame offset and frame
      number that the chip's address has, exactly when that address needs no 32-bit wrap. */
  lemma GeneratorAgrees(t: Tables, x: nat, y: nat, n: nat)
    requires TablesOk(t) && Whitelisted(x, y, n)
    ensures var val, a := HostVal(t, x, y, n), LutAt(t, x, y, n).baseAddr;
      && (val % 210 == (a - 32) % 210 <==> 0 <= val + 32 < U32)
      && (0 <= val + 32 < U32 ==> (val / 210) % 8 == ((a - 32) / 210) % 8)
  {
    var val := HostVal(t, x, y, n);
    RowFacts(y);
    NDeltaFacts(n);
    assert val + 32 == RawBase(t, x, y, n);
    WrapMoves(val);
  }

  lemma WrapMoves(val: int)
    requires -U32 <= val + 32 < 2 * U32
    ensures val % 210 == ((val + 32) % U32 - 32) % 210 <==> 0 <= val + 32 < U32
  {
  }
}
