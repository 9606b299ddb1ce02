/**
 Machine words as the sequence of their bits, least significant bit first. A byte, a
 16-bit mask, a CRC register and a little-endian field differ only in their length.
 */
module Words {

  type Word = seq<bool>
  type Byte = w: Word | |w| == 8 witness seq(8, _ => false)
  /** A byte of code that only compares and adds. */
  type Octet = b: int | 0 <= b < 256
  type Word16 = w: Word | |w| == 16 witness seq(16, _ => false)
  type Word32 = w: Word | |w| == 32 witness seq(32, _ => false)

  const U32 := 0x1_0000_0000

  /** A 32-bit word of code that only does arithmetic. */
  type Num32 = n: nat | n < 0x1_0000_0000

  /** `a ^ b`. */
  function Xor(a: Word, b: Word): (r: Word)
    requires |a| == |b|
    ensures |r| == |a|
    ensures forall i :: 0 <= i < |r| ==> r[i] == (a[i] != b[i])
  {
    seq(|a|, i requires 0 <= i < |a| => a[i] != b[i])
  }

  /** `a | b`. */
  function Or(a: Word, b: Word): (r: Word)
    requires |a| == |b|
    ensures |r| == |a|
    ensures forall i :: 0 <= i < |r| ==> r[i] == (a[i] || b[i])
  {
    seq(|a|, i requires 0 <= i < |a| => a[i] || b[i])
  }

  /** `a >> 1`. */
  function Shr1(a: Word): (r: Word)
    requires |a| > 0
    ensures |r| == |a|
    ensures forall i :: 0 <= i < |r| ==> r[i] == (i + 1 < |a| && a[i + 1])
  {
    seq(|a|, i requires 0 <= i < |a| => i + 1 < |a| && a[i + 1])
  }

  /** `1 << p` in a word of the given width. */
  function OneHot(width: nat, p: nat): (r: Word)
    ensures |r| == width
    ensures forall i :: 0 <= i < width ==> r[i] == (i == p)
  {
    seq(width, i requires 0 <= i < width => i == p)
  }

  lemma XorZero(a: Word, b: Word)
    requires |a| == |b|
    ensures Xor(a, b) == Zeros(|a|) <==> a == b
  {
    if Xor(a, b) == Zeros(|a|) {
      forall i | 0 <= i < |a| ensures a[i] == b[i] {
        assert !Xor(a, b)[i];
      }
    }
  }

  function Zeros(width: nat): (r: Word)
    ensures |r| == width && forall i :: 0 <= i < width ==> !r[i]
  {
    seq(width, i requires 0 <= i < width => false)
  }

  lemma SomeBit(a: Word) returns (i: nat)
    requires a != Zeros(|a|)
    ensures i < |a| && a[i]
  {
    var z := Zeros(|a|);
    assert (forall i :: 0 <= i < |a| ==> !a[i]) ==> a == z;
    i :| 0 <= i < |a| && a[i];
  }

  /** `~a`. */
  function Not(a: Word): (r: Word)
    ensures |r| == |a|
    ensures forall i :: 0 <= i < |r| ==> r[i] == !a[i]
  {
    seq(|a|, i requires 0 <= i < |a| => !a[i])
  }

  // ---- numbers ----

  function Pow2(n: nat): (r: nat)
    ensures r > 0
  {
    if n == 0 then 1 else 2 * Pow2(n - 1)
  }

  lemma Widths()
    ensures Pow2(16) == 0x1_0000 && Pow2(32) == 0x1_0000_0000
  {
    assert Pow2(4) == 16;
    Pow2Sum(4, 4);
    Pow2Sum(8, 8);
    Pow2Sum(16, 16);
  }

  lemma {:induction false} Pow2Sum(a: nat, b: nat)
    ensures Pow2(a + b) == Pow2(a) * Pow2(b)
  {
    if a > 0 {
      Pow2Sum(a - 1, b);
    }
  }

  /** The unsigned number that the bits from position i on stand for. */
  function ToNatFrom(a: Word, i: nat): nat
    requires i <= |a|
    decreases |a| - i
  {
    if i == |a| then 0 else (if a[i] then 1 else 0) + 2 * ToNatFrom(a, i + 1)
  }

  function ToNat(a: Word): nat {
    ToNatFrom(a, 0)
  }

  /** `(n >> i) & 1` */
  predicate NatBit(n: nat, i: nat) {
    if i == 0 then n % 2 == 1 else NatBit(n / 2, i - 1)
  }

  /** An assignment to an unsigned type of the given width: the low bits of n. */
  function OfNat(width: nat, n: nat): (a: Word)
    ensures |a| == width
    ensures forall i :: 0 <= i < width ==> a[i] == NatBit(n, i)
  {
    seq(width, i requires 0 <= i < width => NatBit(n, i))
  }

  lemma {:induction false} ToNatBound(a: Word, i: nat)
    requires i <= |a|
    ensures ToNatFrom(a, i) < Pow2(|a| - i)
    decreases |a| - i
  {
    if i < |a| {
      ToNatBound(a, i + 1);
    }
  }

  /** A word at least half as large as its width allows has its top bit set. */
  lemma TopBit(a: Word)
    requires |a| > 0 && ToNat(a) >= Pow2(|a| - 1)
    ensures a[|a| - 1]
  {
    if !a[|a| - 1] {
      ToNatWidened(a[..|a| - 1], a, 0);
      ToNatBound(a[..|a| - 1], 0);
    }
  }

  lemma {:induction false} ToNatOfBits(a: Word, i: nat, m: nat)
    requires i <= |a| && m < Pow2(|a| - i)
    requires forall j :: i <= j < |a| ==> a[j] == NatBit(m, j - i)
    ensures ToNatFrom(a, i) == m
    decreases |a| - i
  {
    if i < |a| {
      ToNatOfBits(a, i + 1, m / 2);
    }
  }

  lemma ToNatOfNat(width: nat, n: nat)
    requires n < Pow2(width)
    ensures ToNat(OfNat(width, n)) == n
  {
    ToNatOfBits(OfNat(width, n), 0, n);
  }

  lemma LowBitAndRest(p: nat, x: nat)
    requires p < 2
    ensures (p + 2 * x) % 2 == p && (p + 2 * x) / 2 == x
  {
  }

  lemma ToNatHalves(a: Word, i: nat)
    requires i < |a|
    ensures ToNatFrom(a, i) % 2 == (if a[i] then 1 else 0) && ToNatFrom(a, i) / 2 == ToNatFrom(a, i + 1)
  {
    LowBitAndRest(if a[i] then 1 else 0, ToNatFrom(a, i + 1));
  }

  lemma {:induction false} NatBitOfWord(a: Word, i: nat, j: nat)
    requires i + j < |a|
    ensures NatBit(ToNatFrom(a, i), j) == a[i + j]
    decreases j
  {
    ToNatHalves(a, i);
    if j > 0 {
      NatBitOfWord(a, i + 1, j - 1);
    }
  }

  lemma OfNatToNat(a: Word)
    ensures OfNat(|a|, ToNat(a)) == a
  {
    forall j | 0 <= j < |a| ensures OfNat(|a|, ToNat(a))[j] == a[j] {
      NatBitOfWord(a, 0, j);
    }
  }

  /** Different words of one width stand for different numbers. */
  lemma ToNatInjective(a: Word, b: Word)
    requires |a| == |b| && ToNat(a) == ToNat(b)
    ensures a == b
  {
    OfNatToNat(a);
    OfNatToNat(b);
  }

  // ---- XOR of numbers ----

  /** `a ^ b` on unsigned numbers. */
  function XorNat(a: nat, b: nat): nat {
    if a == 0 && b == 0 then 0 else (a + b) % 2 + 2 * XorNat(a / 2, b / 2)
  }

  lemma {:induction false} XorNatBits(a: nat, b: nat)
    ensures XorNat(a, b) % 2 == (a + b) % 2 && XorNat(a, b) / 2 == XorNat(a / 2, b / 2)
  {
    LowBitAndRest((a + b) % 2, XorNat(a / 2, b / 2));
  }

  lemma {:induction false} XorNatTwice(a: nat, b: nat)
    ensures XorNat(XorNat(a, b), b) == a
  {
    if a != 0 || b != 0 {
      var x := XorNat(a, b);
      XorNatBits(a, b);
      XorNatBits(x, b);
      XorNatTwice(a / 2, b / 2);
      ParityBack(x, a, b);
    }
  }

  lemma ParityBack(x: nat, a: nat, b: nat)
    requires x % 2 == (a + b) % 2
    ensures (x + b) % 2 == a % 2
  {
  }

  lemma {:induction false} XorNatBound(a: nat, b: nat, k: nat)
    requires a < Pow2(k) && b < Pow2(k)
    ensures XorNat(a, b) < Pow2(k)
  {
    if k > 0 && (a != 0 || b != 0) {
      XorNatBound(a / 2, b / 2, k - 1);
    }
  }

  lemma {:induction false} XorNatSymmetric(a: nat, b: nat)
    ensures XorNat(a, b) == XorNat(b, a)
  {
    if a != 0 || b != 0 {
      XorNatSymmetric(a / 2, b / 2);
    }
  }

  lemma {:induction false} XorNatZero(a: nat)
    ensures XorNat(a, 0) == a
  {
    if a != 0 {
      XorNatZero(a / 2);
    }
  }

  function Bit(b: bool): nat {
    if b then 1 else 0
  }

  lemma XorNatOfHalves(a: bool, b: bool, m: nat, n: nat)
    ensures XorNat(Bit(a) + 2 * m, Bit(b) + 2 * n) == Bit(a != b) + 2 * XorNat(m, n)
  {
    LowBitAndRest(Bit(a), m);
    LowBitAndRest(Bit(b), n);
    assert (Bit(a) + 2 * m + Bit(b) + 2 * n) % 2 == Bit(a != b);
  }

  /** XOR bit by bit is XOR of the numbers. */
  lemma {:induction false} ToNatXor(a: Word, b: Word, i: nat)
    requires |a| == |b| && i <= |a|
    ensures ToNatFrom(Xor(a, b), i) == XorNat(ToNatFrom(a, i), ToNatFrom(b, i))
    decreases |a| - i
  {
    if i < |a| {
      ToNatXor(a, b, i + 1);
      XorNatOfHalves(a[i], b[i], ToNatFrom(a, i + 1), ToNatFrom(b, i + 1));
    }
  }

  /** `c >> 1` halves the number. */
  lemma {:induction false} ToNatShr1(a: Word, i: nat)
    requires i < |a|
    ensures ToNatFrom(Shr1(a), i) == ToNatFrom(a, i + 1)
    decreases |a| - i
  {
    if i + 1 < |a| {
      ToNatShr1(a, i + 1);
    }
  }

  /** Higher zeros do not change the number. */
  lemma {:induction false} ToNatWidened(a: Word, w: Word, i: nat)
    requires i <= |a| <= |w| && forall j :: i <= j < |w| ==> w[j] == (j < |a| && a[j])
    ensures ToNatFrom(w, i) == ToNatFrom(a, i)
    decreases |w| - i
  {
    if i < |a| {
      ToNatWidened(a, w, i + 1);
    } else {
      ToNatNothing(w, i);
    }
  }

  lemma {:induction false} ToNatNothing(a: Word, i: nat)
    requires i <= |a| && forall j :: i <= j < |a| ==> !a[j]
    ensures ToNatFrom(a, i) == 0
    decreases |a| - i
  {
    if i < |a| {
      ToNatNothing(a, i + 1);
    }
  }

  /** `~a` */
  lemma {:induction false} ToNatNot(a: Word, i: nat)
    requires i <= |a|
    ensures ToNatFrom(Not(a), i) + ToNatFrom(a, i) + 1 == Pow2(|a| - i)
    decreases |a| - i
  {
    if i < |a| {
      ToNatNot(a, i + 1);
    }
  }

  /** The number splits at any bit: `b` is what lies between. */
  lemma {:induction false} ToNatSplit(a: Word, i: nat, b: Word, j: nat)
    requires j <= |b| && i + |b| - j <= |a| && forall k :: j <= k < |b| ==> b[k] == a[i + k - j]
    ensures ToNatFrom(a, i) == ToNatFrom(b, j) + Pow2(|b| - j) * ToNatFrom(a, i + |b| - j)
    decreases |b| - j
  {
    if j < |b| {
      var p, x := Pow2(|b| - j - 1), ToNatFrom(a, i + |b| - j);
      ToNatSplit(a, i + 1, b, j + 1);
      assert 2 * (p * x) == (2 * p) * x;
    }
  }

  /** The eight bits from position i on are the byte b. */
  lemma ToNatPrefix(a: Word, i: nat, b: Byte)
    requires i + 8 <= |a| && forall j :: 0 <= j < 8 ==> b[j] == a[i + j]
    ensures ToNatFrom(a, i) == ToNat(b) + 0x100 * ToNatFrom(a, i + 8)
  {
    ToNatSplit(a, i, b, 0);
    assert Pow2(8) == 0x100;
  }
}
