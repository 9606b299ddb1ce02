/**
 The reflected, bit-serial CRC that the loader computes in two widths: the 16-bit code of
 a configuration frame and the 32-bit code of IEEE 802.3. The theory is the same for every
 width, so the polynomial is a parameter.
 */
module Crc {
  import opened Words

  /** A reflected polynomial: its top bit is always set. */
  predicate IsPoly(poly: Word) {
    |poly| > 0 && poly[|poly| - 1]
  }

  /** One clock: `(c >> 1) ^ POLY` when the low bit is set, `c >> 1` otherwise. */
  function Step(poly: Word, c: Word): (r: Word)
    requires |poly| == |c| > 0
    ensures |r| == |c|
    ensures forall i :: 0 <= i < |r| ==> r[i] == ((i + 1 < |c| && c[i + 1]) != (c[0] && poly[i]))
  {
    seq(|c|, i requires 0 <= i < |c| => (i + 1 < |c| && c[i + 1]) != (c[0] && poly[i]))
  }

  /** As many clocks as `ticks` has bits. */
  function Steps(poly: Word, c: Word, ticks: Word): (r: Word)
    requires |poly| == |c| > 0
    ensures |r| == |c|
    decreases |ticks|
  {
    if ticks == [] then c else Steps(poly, Step(poly, c), ticks[1..])
  }

  /** `c ^ bits`, where the shorter operand is widened with zeros. */
  function XorLow(c: Word, bits: Word): (r: Word)
    requires |bits| <= |c|
    ensures |r| == |c|
    ensures forall i :: 0 <= i < |r| ==> r[i] == (c[i] != (i < |bits| && bits[i]))
  {
    seq(|c|, i requires 0 <= i < |c| => c[i] != (i < |bits| && bits[i]))
  }

  /** One clock with message bit b coming in at the low end. */
  function Shift(poly: Word, c: Word, b: bool): (r: Word)
    requires |poly| == |c| > 0
    ensures |r| == |c|
    ensures forall i :: 0 <= i < |r| ==> r[i] == ((i + 1 < |c| && c[i + 1]) != ((c[0] != b) && poly[i]))
  {
    seq(|c|, i requires 0 <= i < |c| => (i + 1 < |c| && c[i + 1]) != ((c[0] != b) && poly[i]))
  }

  /** The textbook shift register, one message bit a clock. */
  function Feed(poly: Word, c: Word, bits: Word): (r: Word)
    requires |poly| == |c| > 0
    ensures |r| == |c|
    decreases |bits|
  {
    if bits == [] then c else Feed(poly, Shift(poly, c, bits[0]), bits[1..])
  }

  /** Message bits in processing order: byte after byte, least significant bit first. */
  function Flat(m: seq<Byte>): (bits: Word)
    ensures |bits| == 8 * |m|
  {
    if m == [] then [] else m[0] + Flat(m[1..])
  }

  /** Register after a whole message. */
  function Run(poly: Word, c: Word, m: seq<Byte>): (r: Word)
    requires |poly| == |c| > 0
    ensures |r| == |c|
  {
    Feed(poly, c, Flat(m))
  }

  // ---- messages ----

  lemma {:induction false} FlatIndex(m: seq<Byte>, i: nat, p: nat)
    requires i < |m| && p < 8
    ensures Flat(m)[8 * i + p] == m[i][p]
  {
    if i > 0 {
      FlatIndex(m[1..], i - 1, p);
    }
  }

  lemma {:induction false} FlatConcat(m: seq<Byte>, n: seq<Byte>)
    ensures Flat(m + n) == Flat(m) + Flat(n)
  {
    if m == [] {
      assert m + n == n;
    } else {
      FlatConcat(m[1..], n);
      assert (m + n)[1..] == m[1..] + n;
    }
  }

  lemma {:induction false} FlatInjective(m: seq<Byte>, n: seq<Byte>)
    requires |m| == |n| && Flat(m) == Flat(n)
    ensures m == n
  {
    if m != [] {
      assert m[0] == Flat(m)[..8] == Flat(n)[..8] == n[0];
      assert Flat(m[1..]) == Flat(m)[8..] == Flat(n)[8..] == Flat(n[1..]);
      FlatInjective(m[1..], n[1..]);
    }
  }

  lemma {:induction false} FeedConcat(poly: Word, c: Word, a: Word, b: Word)
    requires |poly| == |c| > 0
    ensures Feed(poly, c, a + b) == Feed(poly, Feed(poly, c, a), b)
    decreases |a|
  {
    if a == [] {
      assert a + b == b;
    } else {
      assert (a + b)[1..] == a[1..] + b;
      FeedConcat(poly, Shift(poly, c, a[0]), a[1..], b);
    }
  }

  /** A message may be processed in two pieces: the seam of `crc32_two`. */
  lemma RunConcat(poly: Word, c: Word, m: seq<Byte>, n: seq<Byte>)
    requires |poly| == |c| > 0
    ensures Run(poly, c, m + n) == Run(poly, Run(poly, c, m), n)
  {
    FlatConcat(m, n);
    FeedConcat(poly, c, Flat(m), Flat(n));
  }

  // ---- the register ----

  /** The clock is injective on registers: nothing is ever forgotten. */
  lemma StepInjective(poly: Word, a: Word, b: Word)
    requires IsPoly(poly) && |poly| == |a| == |b|
    requires Step(poly, a) == Step(poly, b)
    ensures a == b
  {
    var t := |a| - 1;
    assert Step(poly, a)[t] == a[0] && Step(poly, b)[t] == b[0];
    forall i | 0 <= i < |a|
      ensures a[i] == b[i]
    {
      if i > 0 {
        assert Step(poly, a)[i - 1] == Step(poly, b)[i - 1];
      }
    }
  }

  /** Every register value is reached by one clock from exactly one other. */
  lemma StepSurjective(poly: Word, d: Word) returns (c: Word)
    requires IsPoly(poly) && |poly| == |d|
    ensures |c| == |d| && Step(poly, c) == d
  {
    var t := |d| - 1;
    c := seq(|d|, i requires 0 <= i < |d| => if i == 0 then d[t] else d[i - 1] != (d[t] && poly[i - 1]));
    assert Step(poly, c) == d;
  }

  lemma StepZero(poly: Word)
    requires |poly| > 0
    ensures Step(poly, Zeros(|poly|)) == Zeros(|poly|)
  {
  }

  lemma {:induction false} StepsNonzero(poly: Word, c: Word, ticks: Word)
    requires IsPoly(poly) && |poly| == |c|
    requires c != Zeros(|c|)
    ensures Steps(poly, c, ticks) != Zeros(|c|)
    decreases |ticks|
  {
    if ticks != [] {
      StepZero(poly);
      if Step(poly, c) == Zeros(|c|) {
        StepInjective(poly, c, Zeros(|c|));
      }
      StepsNonzero(poly, Step(poly, c), ticks[1..]);
    }
  }

  /** XOR-ing up to a register's width of bits in at once and clocking that often is the
      same as feeding them one by one: the `crc ^= byte` of the C code. */
  lemma {:induction false} FeedAtOnce(poly: Word, c: Word, bits: Word)
    requires |poly| == |c| > 0 && |bits| <= |c|
    ensures Feed(poly, c, bits) == Steps(poly, XorLow(c, bits), bits)
    decreases |bits|
  {
    if bits == [] {
      assert XorLow(c, bits) == c;
    } else {
      var d := Shift(poly, c, bits[0]);
      assert Step(poly, XorLow(c, bits)) == XorLow(d, bits[1..]);
      FeedAtOnce(poly, d, bits[1..]);
    }
  }

  /** One turn of the byte loop: XOR a byte in, then eight clocks. */
  lemma RunByte(poly: Word, c: Word, m: seq<Byte>, d: Byte)
    requires |poly| == |c| >= 8
    ensures Run(poly, c, m + [d]) == Steps(poly, XorLow(Run(poly, c, m), d), d)
  {
    RunConcat(poly, c, m, [d]);
    assert Flat([d]) == d;
    FeedAtOnce(poly, Run(poly, c, m), d);
  }

  // ---- errors ----

  /** The CRC of a XOR is the XOR of the CRCs, registers included. */
  lemma {:induction false} FeedLinear(poly: Word, c: Word, d: Word, a: Word, b: Word)
    requires |poly| == |c| == |d| > 0 && |a| == |b|
    ensures Feed(poly, Xor(c, d), Xor(a, b)) == Xor(Feed(poly, c, a), Feed(poly, d, b))
    decreases |a|
  {
    if a != [] {
      var c', d' := Shift(poly, c, a[0]), Shift(poly, d, b[0]);
      assert Shift(poly, Xor(c, d), Xor(a, b)[0]) == Xor(c', d');
      assert Xor(a, b)[1..] == Xor(a[1..], b[1..]);
      FeedLinear(poly, c', d', a[1..], b[1..]);
    }
  }

  lemma {:induction false} FeedZeros(poly: Word, c: Word, n: nat)
    requires |poly| == |c| > 0
    ensures Feed(poly, c, Zeros(n)) == Steps(poly, c, Zeros(n))
    decreases n
  {
    if n > 0 {
      assert Shift(poly, c, Zeros(n)[0]) == Step(poly, c) && Zeros(n)[1..] == Zeros(n - 1);
      FeedZeros(poly, Step(poly, c), n - 1);
    }
  }

  lemma {:induction false} StepsZero(poly: Word, ticks: Word)
    requires |poly| > 0
    ensures Steps(poly, Zeros(|poly|), ticks) == Zeros(|poly|)
    decreases |ticks|
  {
    if ticks != [] {
      StepZero(poly);
      StepsZero(poly, ticks[1..]);
    }
  }

  /** Bits outside the window starting at k and one register wide. */
  predicate Burst(e: Word, k: nat, width: nat) {
    forall i :: 0 <= i < |e| && !(k <= i < k + width) ==> !e[i]
  }

  lemma SplitBurst(e: Word, k: nat, width: nat) returns (w: Word, rest: nat)
    requires Burst(e, k, width) && e != Zeros(|e|)
    ensures 0 < |w| <= width && w != Zeros(|w|)
    ensures e == Zeros(k) + w + Zeros(rest)
  {
    var f := SomeBit(e);
    var hi := if k + width <= |e| then k + width else |e|;
    w, rest := e[k..hi], |e| - hi;
    assert w[f - k];
  }

  /** An error pattern confined to one register's width of consecutive bits leaves a mark. */
  lemma BurstNonzero(poly: Word, e: Word, k: nat)
    requires IsPoly(poly)
    requires Burst(e, k, |poly|) && e != Zeros(|e|)
    ensures Feed(poly, Zeros(|poly|), e) != Zeros(|poly|)
  {
    var z := Zeros(|poly|);
    var w, rest := SplitBurst(e, k, |poly|);
    FeedZeros(poly, z, k);
    StepsZero(poly, Zeros(k));
    FeedConcat(poly, z, Zeros(k), w);
    WindowNonzero(poly, w);
    var r := Feed(poly, z, w);
    FeedConcat(poly, z, Zeros(k) + w, Zeros(rest));
    FeedZeros(poly, r, rest);
    StepsNonzero(poly, r, Zeros(rest));
  }

  lemma WindowNonzero(poly: Word, w: Word)
    requires IsPoly(poly) && |w| <= |poly| && w != Zeros(|w|)
    ensures Feed(poly, Zeros(|poly|), w) != Zeros(|poly|)
  {
    var z := Zeros(|poly|);
    FeedAtOnce(poly, z, w);
    var i := SomeBit(w);
    assert XorLow(z, w)[i];
    StepsNonzero(poly, XorLow(z, w), w);
  }

  /** Two messages of one length have the same CRC exactly when their difference is invisible. */
  lemma SameCrc(poly: Word, c: Word, m: seq<Byte>, n: seq<Byte>)
    requires |poly| == |c| > 0 && |m| == |n|
    ensures Run(poly, c, m) == Run(poly, c, n)
      <==> Feed(poly, Zeros(|poly|), Xor(Flat(m), Flat(n))) == Zeros(|poly|)
  {
    XorZero(c, c);
    XorZero(Run(poly, c, m), Run(poly, c, n));
    FeedLinear(poly, c, c, Flat(m), Flat(n));
  }

  /** Every burst no longer than the register changes the CRC. */
  lemma {:induction false} BurstDetected(poly: Word, c: Word, m: seq<Byte>, n: seq<Byte>, k: nat)
    requires IsPoly(poly) && |poly| == |c| && |m| == |n|
    requires m != n
    requires forall i :: 0 <= i < 8 * |m| && !(k <= i < k + |poly|) ==> Flat(m)[i] == Flat(n)[i]
    ensures Run(poly, c, m) != Run(poly, c, n)
  {
    var e := Xor(Flat(m), Flat(n));
    SameCrc(poly, c, m, n);
    XorZero(Flat(m), Flat(n));
    if Flat(m) == Flat(n) {
      FlatInjective(m, n);
    }
    BurstNonzero(poly, e, k);
  }
}
