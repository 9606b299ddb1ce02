/**
 The on-chip LUT codec: which sixteen cells of the image hold the truth table of the logic
 element at (x, y, n), how a mask is XOR-ed onto them and how it is read back.

 The address tables are generated from another repository, so they are a parameter.
 */
module LutCodec {
  import opened Words

  const PAIR_SPACING := 210
  const PIN_X: seq<nat> := [10, 16, 22, 28]
  const LAB_Y: seq<nat> := [2, 3, 4, 5, 6, 7, 8, 9, 10, 11, 12, 13, 14, 16, 17, 18, 19, 21]
  const NUM_Y := 18
  const NUM_N := 16

  datatype Tables = Tables(columnBase: seq<nat>, slotBase: seq<nat>, sigmaInvPacked: seq<Byte>)

  /** What `lc_init` fills in. `sigma` maps a truth-table input to its place in the minterm. */
  datatype Lut = Lut(baseAddr: nat, sigma: seq<nat>, bp: nat, kOdd: bool, x: nat, y: nat, n: nat)

  datatype Status = LcOk | LcErrX | LcErrY | LcErrN

  // ---- permutations of the four inputs ----

  predicate IsPerm(p: seq<nat>) {
    && |p| == 4
    && (forall i :: 0 <= i < 4 ==> p[i] < 4)
    && (forall i, j :: 0 <= i < j < 4 ==> p[i] != p[j])
  }

  predicate Inverse(p: seq<nat>, q: seq<nat>)
    requires IsPerm(p) && |q| == 4
  {
    forall i :: 0 <= i < 4 ==> q[p[i]] == i
  }

  lemma InverseIsPerm(p: seq<nat>, q: seq<nat>)
    requires IsPerm(p) && |q| == 4 && Inverse(p, q)
    ensures IsPerm(q) && Inverse(q, p)
  {
    var a, b, c, d := p[0], p[1], p[2], p[3];
    assert q[a] == 0 && q[b] == 1 && q[c] == 2 && q[d] == 3;
    assert forall j :: 0 <= j < 4 ==> q[j] == q[a] || q[j] == q[b] || q[j] == q[c] || q[j] == q[d];
  }

  /** Host side: two bits per entry, entry 0 in the low bits. */
  function PackSigmaInv(si: seq<nat>): Byte
    requires |si| == 4
  {
    OfNat(2, si[0]) + OfNat(2, si[1]) + OfNat(2, si[2]) + OfNat(2, si[3])
  }

  /** `(packed >> i) & 3` */
  function TwoBits(packed: Byte, i: nat): nat
    requires i + 2 <= 8
  {
    (if packed[i] then 1 else 0) + (if packed[i + 1] then 2 else 0)
  }

  /** Chip side. */
  function Unpack(packed: Byte): (si: seq<nat>)
    ensures |si| == 4 && forall i :: 0 <= i < 4 ==> si[i] < 4
  {
    [TwoBits(packed, 0), TwoBits(packed, 2), TwoBits(packed, 4), TwoBits(packed, 6)]
  }

  lemma TwoBitsRoundTrip(v: nat)
    requires v < 4
    ensures OfNat(2, v) == [v % 2 == 1, v / 2 == 1]
  {
    assert NatBit(v, 1) == NatBit(v / 2, 0);
  }

  lemma UnpackPack(si: seq<nat>)
    requires |si| == 4 && forall i :: 0 <= i < 4 ==> si[i] < 4
    ensures Unpack(PackSigmaInv(si)) == si
  {
    var p := PackSigmaInv(si);
    forall i | 0 <= i < 4 ensures TwoBits(p, 2 * i) == si[i] {
      TwoBitsRoundTrip(si[i]);
      assert p[2 * i] == OfNat(2, si[i])[0] && p[2 * i + 1] == OfNat(2, si[i])[1];
    }
  }

  // ---- addresses ----

  /** `cram_n_delta`; C division truncates, but every operand here is non-negative. */
  function CramNDelta(n: nat): int {
    var k := n / 2;
    var half, kh := k / 8, k % 8;
    -(half * 38) - (kh / 2) * 8 - (kh % 2) * 2
  }

  function Slot(y: nat): nat
    requires y >= 2
  {
    (y - 2) % 3
  }

  function Group(y: nat): nat
    requires y >= 2
  {
    (y - 2) / 3
  }

  function CramCtrlBit(slot: nat, group: nat): int {
    7 - group - (if slot > 0 then 1 else 0)
  }

  /** The slot-1 cells that fall off the front of their period wrap to its end. */
  predicate Wraps(slot: nat, group: nat, nd: int) {
    slot == 1 && if group == 0 then 24 + nd <= 0 else 24 + group * 3 + nd < 0
  }

  function AddrAdj(slot: nat, group: nat, nd: int): nat {
    if !Wraps(slot, group, nd) then 0 else if group == 0 then 206 else 207
  }

  function BitPos(slot: nat, group: nat, nd: int): int {
    if Wraps(slot, group, nd) then 7 - group else CramCtrlBit(slot, group)
  }

  function RowOffset(slot: nat, group: nat, nd: int): int {
    group * 3 + (if slot == 0 && group > 0 then 1 else 0) + nd + AddrAdj(slot, group, nd)
  }

  /** Index of the first occurrence, -1 if there is none. */
  function IndexIn(tbl: seq<nat>, v: nat): (i: int)
    ensures -1 <= i < |tbl|
    ensures i >= 0 ==> tbl[i] == v
    ensures i == -1 <==> v !in tbl
  {
    if tbl == [] then -1
    else if tbl[0] == v then 0
    else
      var j := IndexIn(tbl[1..], v);
      if j < 0 then -1 else j + 1
  }

  method FindIndex(tbl: seq<nat>, v: nat) returns (i: int)
    ensures i == IndexIn(tbl, v)
  {
    i := 0;
    while i < |tbl|
      invariant 0 <= i <= |tbl|
      invariant IndexIn(tbl, v) == if IndexIn(tbl[i..], v) < 0 then -1 else i + IndexIn(tbl[i..], v)
    {
      if tbl[i] == v {
        return;
      }
      assert tbl[i..][1..] == tbl[i + 1..];
      i := i + 1;
    }
    i := -1;
  }

  predicate ValidX(x: nat) {
    x == 10 || x == 16 || x == 22 || x == 28
  }

  function XIndex(x: nat): nat
    requires ValidX(x)
  {
    (x - 10) / 6
  }

  /** The membership test the C code makes by searching the generated array. */
  lemma SearchX(x: nat)
    ensures IndexIn(PIN_X, x) == if ValidX(x) then XIndex(x) else -1
  {
    var i := IndexIn(PIN_X, x);
    assert PIN_X[0] == 10 && PIN_X[1] == 16 && PIN_X[2] == 22 && PIN_X[3] == 28;
    assert i == -1 || i == 0 || i == 1 || i == 2 || i == 3;
  }

  predicate ValidY(y: nat) {
    2 <= y <= 14 || 16 <= y <= 19 || y == 21
  }

  function YIndex(y: nat): nat
    requires ValidY(y)
  {
    if y <= 14 then y - 2 else if y <= 19 then y - 3 else 17
  }

  lemma SearchY(y: nat)
    ensures IndexIn(LAB_Y, y) == if ValidY(y) then YIndex(y) else -1
  {
    assert forall k :: 0 <= k < 18 ==> LAB_Y[k] == if k <= 12 then k + 2 else if k <= 16 then k + 3 else 21;
    var i := IndexIn(LAB_Y, y);
    if ValidY(y) {
      assert LAB_Y[YIndex(y)] == y;
    }
  }

  predicate ValidN(n: nat) { n <= 30 && n % 2 == 0 }

  predicate Whitelisted(x: nat, y: nat, n: nat) {
    ValidX(x) && ValidY(y) && ValidN(n)
  }

  /** `lc_init` tests x, then y, then n. */
  function InitStatus(x: nat, y: nat, n: nat): (st: Status)
    ensures st.LcOk? <==> Whitelisted(x, y, n)
    ensures st.LcErrX? <==> !ValidX(x)
    ensures st.LcErrY? <==> ValidX(x) && !ValidY(y)
    ensures st.LcErrN? <==> ValidX(x) && ValidY(y) && !ValidN(n)
  {
    if !ValidX(x) then LcErrX else if !ValidY(y) then LcErrY else if !ValidN(n) then LcErrN else LcOk
  }

  /** The sizes and integer widths of the generated arrays. */
  predicate TablesShape(t: Tables) {
    && |t.columnBase| == 4 && |t.slotBase| == 3 && |t.sigmaInvPacked| == 4 * NUM_Y * NUM_N
    && (forall i :: 0 <= i < 4 ==> t.columnBase[i] < U32)
    && (forall i :: 0 <= i < 3 ==> t.slotBase[i] < 0x1_0000)
  }

  /** The generator stops at an entry that is no permutation. */
  predicate TablesOk(t: Tables) {
    TablesShape(t) && forall i :: 0 <= i < |t.sigmaInvPacked| ==> IsPerm(Unpack(t.sigmaInvPacked[i]))
  }

  /** The address before it is truncated to 32 bits. */
  function RawBase(t: Tables, x: nat, y: nat, n: nat): int
    requires TablesShape(t) && Whitelisted(x, y, n)
  {
    t.columnBase[XIndex(x)] - 136 + t.slotBase[Slot(y)] + RowOffset(Slot(y), Group(y), CramNDelta(n))
  }

  function FlatIndex(x: nat, y: nat, n: nat): (i: nat)
    requires Whitelisted(x, y, n)
    ensures i < 4 * NUM_Y * NUM_N
  {
    XIndex(x) * NUM_Y * NUM_N + YIndex(y) * NUM_N + n / 2
  }

  function SigmaInv(t: Tables, x: nat, y: nat, n: nat): (p: seq<nat>)
    requires TablesShape(t) && Whitelisted(x, y, n)
    ensures |p| == 4 && forall i :: 0 <= i < 4 ==> p[i] < 4
    ensures TablesOk(t) ==> IsPerm(p)
  {
    Unpack(t.sigmaInvPacked[FlatIndex(x, y, n)])
  }

  function Invert(p: seq<nat>): (q: seq<nat>)
    requires IsPerm(p)
    ensures |q| == 4
  {
    seq(4, j requires 0 <= j < 4 => if p[0] == j then 0 else if p[1] == j then 1 else if p[2] == j then 2 else 3)
  }

  lemma InvertInverse(p: seq<nat>)
    requires IsPerm(p)
    ensures Inverse(p, Invert(p)) && IsPerm(Invert(p))
  {
    InverseIsPerm(p, Invert(p));
  }

  lemma RowFacts(y: nat)
    requires ValidY(y)
    ensures Group(y) <= 6
    ensures Slot(y) != 1 ==> Group(y) <= 5
  {
  }

  lemma BitPosRange(y: nat, nd: int)
    requires ValidY(y)
    ensures 0 <= BitPos(Slot(y), Group(y), nd) < 8
  {
    RowFacts(y);
  }

  /** The descriptor of an accepted element. */
  function LutAt(t: Tables, x: nat, y: nat, n: nat): (lc: Lut)
    requires TablesOk(t) && Whitelisted(x, y, n)
    ensures WellFormed(lc)
  {
    InvertInverse(SigmaInv(t, x, y, n));
    BitPosRange(y, CramNDelta(n));
    Lut(RawBase(t, x, y, n) % U32, Invert(SigmaInv(t, x, y, n)), BitPos(Slot(y), Group(y), CramNDelta(n)),
        (n / 2) % 2 == 1, x, y, n)
  }

  predicate WellFormed(lc: Lut) {
    lc.baseAddr < U32 && IsPerm(lc.sigma) && lc.bp < 8
  }

  /** The four stores `sigma[si[i]] = i` onto what `sigma` held before. */
  function Scatter(prior: seq<nat>, si: seq<nat>, k: nat): (sigma: seq<nat>)
    requires |prior| == |si| == 4 && k <= 4 && forall i :: 0 <= i < 4 ==> si[i] < 4
    ensures |sigma| == 4
  {
    if k == 0 then prior else Scatter(prior, si, k - 1)[si[k - 1] := k - 1]
  }

  lemma {:induction false} ScatterAt(prior: seq<nat>, si: seq<nat>, k: nat, j: nat)
    requires |prior| == |si| == 4 && k <= 4 && j < 4 && forall i :: 0 <= i < 4 ==> si[i] < 4
    ensures (forall i :: 0 <= i < k ==> si[i] != j) ==> Scatter(prior, si, k)[j] == prior[j]
    ensures forall i :: 0 <= i < k && si[i] == j && (forall h :: i < h < k ==> si[h] != j) ==>
      Scatter(prior, si, k)[j] == i
  {
    if k > 0 {
      ScatterAt(prior, si, k - 1, j);
    }
  }

  lemma ScatterInverts(prior: seq<nat>, p: seq<nat>)
    requires |prior| == 4 && IsPerm(p)
    ensures Scatter(prior, p, 4) == Invert(p)
  {
    var q := Scatter(prior, p, 4);
    forall i | 0 <= i < 4 ensures q[p[i]] == i {
      ScatterAt(prior, p, 4, p[i]);
    }
    InvertUnique(p, q);
  }

  /** `lc_init` determines `sigma`, whatever the structure held before, exactly for table entries
      that are permutations. The sentinel 0xFF is none, and is not tested for. */
  lemma SigmaDetermined(si: seq<nat>)
    requires |si| == 4 && forall i :: 0 <= i < 4 ==> si[i] < 4
    ensures IsPerm(si)
      <==> forall p: seq<nat>, q: seq<nat> :: |p| == |q| == 4 ==> Scatter(p, si, 4) == Scatter(q, si, 4)
  {
    if IsPerm(si) {
      forall p: seq<nat>, q: seq<nat> | |p| == |q| == 4 ensures Scatter(p, si, 4) == Scatter(q, si, 4) {
        ScatterInverts(p, si);
        ScatterInverts(q, si);
      }
    } else {
      var j := Missed(si);
      var p, q: seq<nat> := [0, 0, 0, 0], [1, 1, 1, 1];
      ScatterAt(p, si, 4, j);
      ScatterAt(q, si, 4, j);
      assert Scatter(p, si, 4) != Scatter(q, si, 4);
    }
  }

  lemma Missed(si: seq<nat>) returns (j: nat)
    requires |si| == 4 && (forall i :: 0 <= i < 4 ==> si[i] < 4) && !IsPerm(si)
    ensures j < 4 && forall i :: 0 <= i < 4 ==> si[i] != j
  {
    j := if 0 !in si then 0 else if 1 !in si then 1 else if 2 !in si then 2 else 3;
    if j == 3 && 3 in si {
      var a :| 0 <= a < 4 && si[a] == 0;
      var b :| 0 <= b < 4 && si[b] == 1;
      var c :| 0 <= c < 4 && si[c] == 2;
      var d :| 0 <= d < 4 && si[d] == 3;
      InverseIsPerm([a, b, c, d], si);
    }
  }

  lemma SentinelUndetermined(packed: Byte)
    requires forall i :: 0 <= i < 8 ==> packed[i]
    ensures !IsPerm(Unpack(packed))
  {
    assert Unpack(packed)[0] == Unpack(packed)[1];
  }

  lemma SigmaInverts(t: Tables, x: nat, y: nat, n: nat, prior: seq<nat>)
    requires TablesShape(t) && Whitelisted(x, y, n) && |prior| == 4
    ensures TablesOk(t) ==> Scatter(prior, SigmaInv(t, x, y, n), 4) == Invert(SigmaInv(t, x, y, n))
  {
    if TablesOk(t) {
      ScatterInverts(prior, SigmaInv(t, x, y, n));
    }
  }

  /** What `lc_init` leaves in the structure whose `sigma` was `prior`, for any table. */
  function LutFrom(t: Tables, x: nat, y: nat, n: nat, prior: seq<nat>): (lc: Lut)
    requires TablesShape(t) && Whitelisted(x, y, n) && |prior| == 4
    ensures TablesOk(t) ==> lc == LutAt(t, x, y, n)
  {
    var sigma := Scatter(prior, SigmaInv(t, x, y, n), 4);
    BitPosRange(y, CramNDelta(n));
    SigmaInverts(t, x, y, n, prior);
    Lut(RawBase(t, x, y, n) % U32, sigma, BitPos(Slot(y), Group(y), CramNDelta(n)), (n / 2) % 2 == 1, x, y, n)
  }

  method LcInit(t: Tables, x: nat, y: nat, n: nat, prior: seq<nat>) returns (st: Status, lc: Lut)
    requires TablesShape(t) && |prior| == 4
    ensures st == InitStatus(x, y, n)
    ensures st.LcOk? ==> lc == LutFrom(t, x, y, n, prior)
  {
    lc := Lut(0, prior, 0, false, 0, 0, 0);
    var xIdx := FindX(x);
    if xIdx < 0 { return LcErrX, lc; }
    var yIdx := FindY(y);
    if yIdx < 0 { return LcErrY, lc; }
    if n > 30 || n % 2 == 1 { return LcErrN, lc; }
    var baseAddr, bp := LcAddress(t, xIdx, x, y, n);
    var sigma := LcSigma(t, xIdx, yIdx, x, y, n, prior);
    BitPosRange(y, CramNDelta(n));
    st, lc := LcOk, Lut(baseAddr, sigma, bp, (n / 2) % 2 == 1, x, y, n);
  }

  method FindX(x: nat) returns (i: int)
    ensures i == if ValidX(x) then XIndex(x) else -1
  {
    i := FindIndex(PIN_X, x);
    SearchX(x);
  }

  method FindY(y: nat) returns (i: int)
    ensures i == if ValidY(y) then YIndex(y) else -1
  {
    i := FindIndex(LAB_Y, y);
    SearchY(y);
  }

  /** The address half of `lc_init`. */
  method LcAddress(t: Tables, xIdx: nat, x: nat, y: nat, n: nat) returns (baseAddr: nat, bp: int)
    requires TablesShape(t) && Whitelisted(x, y, n) && xIdx == XIndex(x)
    ensures baseAddr == RawBase(t, x, y, n) % U32
    ensures bp == BitPos(Slot(y), Group(y), CramNDelta(n))
  {
    var slot, group := (y - 2) % 3, (y - 2) / 3;
    var nd := CramNDelta(n);
    var addrAdj: int;
    if slot == 1 && group == 0 {
      if 24 + nd <= 0 {
        bp, addrAdj := 7 - group, 206;
      } else {
        bp, addrAdj := CramCtrlBit(slot, group), 0;
      }
    } else if slot == 1 && 24 + group * 3 + nd < 0 {
      bp, addrAdj := 7 - group, 207;
    } else {
      bp, addrAdj := CramCtrlBit(slot, group), 0;
    }
    var column: int := t.columnBase[xIdx];
    var periodStart := column - 136;
    var offset := t.slotBase[slot] + group * 3 + (if slot == 0 && group > 0 then 1 else 0);
    baseAddr := (periodStart + offset + nd + addrAdj) % U32;
  }

  /** The permutation half: unpack the table entry and store its inverse. */
  method LcSigma(t: Tables, xIdx: nat, yIdx: nat, x: nat, y: nat, n: nat, prior: seq<nat>) returns (sigma: seq<nat>)
    requires TablesShape(t) && Whitelisted(x, y, n) && xIdx == XIndex(x) && yIdx == YIndex(y) && |prior| == 4
    ensures sigma == Scatter(prior, SigmaInv(t, x, y, n), 4)
  {
    var si := Unpack(t.sigmaInvPacked[xIdx * NUM_Y * NUM_N + yIdx * NUM_N + n / 2]);
    sigma := prior;
    for i := 0 to 4
      invariant sigma == Scatter(prior, si, i)
    {
      sigma := sigma[si[i] := i];
    }
  }

  lemma InvertUnique(p: seq<nat>, q: seq<nat>)
    requires IsPerm(p) && |q| == 4 && forall j :: 0 <= j < 4 ==> q[p[j]] == j
    ensures q == Invert(p)
  {
    InverseIsPerm(p, q);
    InvertInverse(p);
  }
}
