/** The same CRC on plain numbers, as a C programmer writes it. */
module CrcNumbers {
  import opened Words
  import Crc

  /** `c & 1 ? (c >> 1) ^ poly : c >> 1` */
  function ClockNat(poly: nat, c: nat): nat {
    if c % 2 == 1 then XorNat(c / 2, poly) else c / 2
  }

  function ClocksNat(poly: nat, c: nat, k: nat): nat
    decreases k
  {
    if k == 0 then c else ClocksNat(poly, ClockNat(poly, c), k - 1)
  }

  /** XOR each byte in, then eight clocks. */
  function CrcNat(poly: nat, c: nat, m: seq<nat>): nat
    decreases |m|
  {
    if m == [] then c else CrcNat(poly, ClocksNat(poly, XorNat(c, m[0]), 8), m[1..])
  }

  function Numbers(m: seq<Byte>): (r: seq<nat>)
    ensures |r| == |m| && forall i :: 0 <= i < |m| ==> r[i] == ToNat(m[i])
  {
    seq(|m|, i requires 0 <= i < |m| => ToNat(m[i]))
  }

  lemma StepNumber(poly: Word, c: Word)
    requires |poly| == |c| > 0
    ensures ToNat(Crc.Step(poly, c)) == ClockNat(ToNat(poly), ToNat(c))
  {
    ToNatShr1(c, 0);
    ToNatHalves(c, 0);
    if c[0] {
      assert Crc.Step(poly, c) == Xor(Shr1(c), poly);
      ToNatXor(Shr1(c), poly, 0);
    } else {
      assert Crc.Step(poly, c) == Shr1(c);
    }
  }

  lemma {:induction false} StepsNumber(poly: Word, c: Word, ticks: Word)
    requires |poly| == |c| > 0
    ensures ToNat(Crc.Steps(poly, c, ticks)) == ClocksNat(ToNat(poly), ToNat(c), |ticks|)
    decreases |ticks|
  {
    if ticks != [] {
      StepNumber(poly, c);
      StepsNumber(poly, Crc.Step(poly, c), ticks[1..]);
    }
  }

  lemma XorLowNumber(c: Word, bits: Word)
    requires |bits| <= |c|
    ensures ToNat(Crc.XorLow(c, bits)) == XorNat(ToNat(c), ToNat(bits))
  {
    var wide: Word := seq(|c|, i requires 0 <= i < |c| => i < |bits| && bits[i]);
    assert Crc.XorLow(c, bits) == Xor(c, wide);
    ToNatXor(c, wide, 0);
    ToNatWidened(bits, wide, 0);
  }

  /** The shift register over the bits of a message is the byte loop on numbers. */
  lemma {:induction false} RunNumber(poly: Word, c: Word, m: seq<Byte>)
    requires |poly| == |c| >= 8
    ensures ToNat(Crc.Run(poly, c, m)) == CrcNat(ToNat(poly), ToNat(c), Numbers(m))
    decreases |m|
  {
    if m != [] {
      var d := Crc.Run(poly, c, [m[0]]);
      assert m == [m[0]] + m[1..];
      Crc.RunConcat(poly, c, [m[0]], m[1..]);
      Crc.RunByte(poly, c, [], m[0]);
      assert [] + [m[0]] == [m[0]];
      XorLowNumber(c, m[0]);
      StepsNumber(poly, Crc.XorLow(c, m[0]), m[0]);
      assert Numbers(m)[1..] == Numbers(m[1..]);
      RunNumber(poly, d, m[1..]);
    }
  }
}
