/** What `lc_init` computes, row by row and in numbers. */
module LutNumbers {
  import opened Words
  import opened LutCodec

  lemma DeltaDigits(h: nat, a: nat, b: nat)
    requires h < 2 && a < 4 && b < 2
    ensures CramNDelta(16 * h + 4 * a + 2 * b) == -38 * h - 8 * a - 2 * b
    ensures ValidN(16 * h + 4 * a + 2 * b) && (16 * h + 4 * a + 2 * b) / 2 % 2 == b
  {
    var k := 8 * h + 2 * a + b;
    assert (16 * h + 4 * a + 2 * b) / 2 == k;
    assert k / 8 == h && k % 8 == 2 * a + b;
  }

  lemma RowOf(g: nat, s: nat)
    requires s < 3
    ensures Slot(3 * g + 2 + s) == s && Group(3 * g + 2 + s) == g
  {
  }

  /** Where the rows of slot s of a column start. */
  function RowsStart(t: Tables, x: nat, s: nat): int
    requires TablesShape(t) && ValidX(x) && s < 3
  {
    (t.columnBase[(x - 10) / 6] as int) - 136 + t.slotBase[s]
  }

  /** The element n = 16h + 4a + 2b. */
  predicate Digits(n: nat, h: nat, a: nat, b: nat) {
    h < 2 && a < 4 && b < 2 && n == 16 * h + 4 * a + 2 * b
  }

  /** Distance of an element from the first of its row. */
  function Down(h: nat, a: nat, b: nat): int {
    -38 * h - 8 * a - 2 * b
  }

  /** Elements of a middle row that fall off the front of their period, 24 bytes before the row's
      start; in group 0 its first byte is not used either. */
  predicate FallsOff(g: nat, down: int) {
    if g == 0 then 24 + down <= 0 else 24 + 3 * g + down < 0
  }

  /** The bit of row s of group g: each group is one bit lower, and the second and third rows are one
      bit below the first. A middle element that falls off keeps the bit of the first row. */
  function RowBit(g: nat, s: nat, down: int): int {
    match s
    case 0 => 7 - g
    case 1 => if FallsOff(g, down) then 7 - g else 6 - g
    case _ => 6 - g
  }

  /** Its place: each group is three bytes further up, the first row one more from group 1 on. A
      middle element that falls off is moved up by a frame less three bytes, in group 0 less four. */
  function RowPlace(g: nat, s: nat, down: int): int {
    match s
    case 0 => if g == 0 then down else 3 * g + 1 + down
    case 1 => if !FallsOff(g, down) then 3 * g + down else if g == 0 then 206 + down else 3 * g + 207 + down
    case _ => 3 * g + down
  }

  lemma RowIs(g: nat, s: nat, down: int)
    requires s < 3
    ensures BitPos(s, g, down) == RowBit(g, s, down) && RowOffset(s, g, down) == RowPlace(g, s, down)
  {
  }

  lemma RowWithDelta(t: Tables, x: nat, y: nat, n: nat, g: nat, s: nat, down: int)
    requires TablesOk(t) && Whitelisted(x, y, n) && y == 3 * g + 2 + s && s < 3 && CramNDelta(n) == down
    ensures LutAt(t, x, y, n).baseAddr == (RowsStart(t, x, s) + RowPlace(g, s, down)) % 0x1_0000_0000
    ensures LutAt(t, x, y, n).bp == RowBit(g, s, down)
  {
    RowIs(g, s, down);
    RowOf(g, s);
  }

  /** Address and bit of every element; the rows come in groups of three, y = 3g + 2, 3g + 3, 3g + 4. */
  lemma RowNumbers(t: Tables, x: nat, y: nat, n: nat, g: nat, s: nat, h: nat, a: nat, b: nat)
    requires TablesOk(t) && Whitelisted(x, y, n) && y == 3 * g + 2 + s && s < 3 && Digits(n, h, a, b)
    ensures LutAt(t, x, y, n).baseAddr == (RowsStart(t, x, s) + RowPlace(g, s, Down(h, a, b))) % 0x1_0000_0000
    ensures LutAt(t, x, y, n).bp == RowBit(g, s, Down(h, a, b))
  {
    DeltaDigits(h, a, b);
    RowWithDelta(t, x, y, n, g, s, Down(h, a, b));
  }

  /** Every row that can be edited, and every element of it, is one of these. */
  lemma EveryRow(y: nat, n: nat) returns (g: nat, s: nat, h: nat, a: nat, b: nat)
    requires ValidY(y) && ValidN(n)
    ensures y == 3 * g + 2 + s && s < 3 && Digits(n, h, a, b)
  {
    g, s := (y - 2) / 3, (y - 2) % 3;
    h, a, b := n / 16, n % 16 / 4, n % 4 / 2;
  }

  /** The two bytes of the pairs are exchanged exactly for n = 2, 6, 10, ... */
  lemma OddElements(t: Tables, x: nat, y: nat, n: nat)
    requires TablesOk(t) && Whitelisted(x, y, n)
    ensures LutAt(t, x, y, n).kOdd <==> n % 4 == 2
  {
    HalfOdd(n);
  }

  lemma HalfOdd(n: nat)
    requires n % 2 == 0
    ensures n / 2 % 2 == 1 <==> n % 4 == 2
  {
  }

  // ---- the permutation table ----

  predicate Precedes(x: nat, y: nat, n: nat, x': nat, y': nat, n': nat) {
    x < x' || (x == x' && (y < y' || (y == y' && n < n')))
  }

  /** The table holds the elements in the order of x, then y, then n, ... */
  lemma FlatOrder(x: nat, y: nat, n: nat, x': nat, y': nat, n': nat)
    requires Whitelisted(x, y, n) && Whitelisted(x', y', n') && Precedes(x, y, n, x', y', n')
    ensures FlatIndex(x, y, n) < FlatIndex(x', y', n')
  {
  }

  /** ... and nothing else; the two leave no other index. */
  lemma FlatOnto(i: nat) returns (x: nat, y: nat, n: nat)
    requires i < 4 * 18 * 16
    ensures Whitelisted(x, y, n) && FlatIndex(x, y, n) == i
  {
    var column, rest := i / 288, i % 288;
    var row := rest / 16;
    x, n := 10 + 6 * column, rest % 16 * 2;
    y := RowAt(row);
    assert i == 288 * column + 16 * row + rest % 16;
    assert XIndex(x) == column && n / 2 == rest % 16;
  }

  lemma RowAt(row: nat) returns (y: nat)
    requires row < 18
    ensures ValidY(y) && YIndex(y) == row
  {
    y := if row <= 12 then row + 2 else if row <= 16 then row + 3 else 21;
  }

  lemma TwoBitsAt(packed: Byte, i: nat)
    requires i + 2 <= 8
    ensures ToNatFrom(packed, i) == TwoBits(packed, i) + 4 * ToNatFrom(packed, i + 2)
  {
    assert ToNatFrom(packed, i) == Bit(packed[i]) + 2 * ToNatFrom(packed, i + 1);
  }

  lemma TwoBitsNumber(packed: Byte)
    ensures ToNat(packed) == TwoBits(packed, 0) + 4 * TwoBits(packed, 2) + 16 * TwoBits(packed, 4)
      + 64 * TwoBits(packed, 6)
  {
    TwoBitsAt(packed, 0);
    TwoBitsAt(packed, 2);
    TwoBitsAt(packed, 4);
    TwoBitsAt(packed, 6);
  }

  lemma FourFours(a: nat, b: nat, c: nat, d: nat)
    requires a < 4 && b < 4 && c < 4 && d < 4
    ensures var v := a + 4 * b + 16 * c + 64 * d; v % 4 == a && v / 4 % 4 == b && v / 16 % 4 == c && v / 64 == d
  {
  }

  /** The table byte is read two bits at a time from the low end; its digit i says which place of
      `sigma` holds i. */
  lemma SigmaNumber(t: Tables, x: nat, y: nat, n: nat)
    requires TablesOk(t) && Whitelisted(x, y, n)
    ensures var v, sigma := ToNat(t.sigmaInvPacked[FlatIndex(x, y, n)]), LutAt(t, x, y, n).sigma;
      sigma[v % 4] == 0 && sigma[v / 4 % 4] == 1 && sigma[v / 16 % 4] == 2 && v / 64 < 4 && sigma[v / 64] == 3
  {
    var packed := t.sigmaInvPacked[FlatIndex(x, y, n)];
    var si := Unpack(packed);
    TwoBitsNumber(packed);
    FourFours(si[0], si[1], si[2], si[3]);
    InvertInverse(si);
    assert forall i :: 0 <= i < 4 ==> Invert(si)[si[i]] == i;
  }
}
