/** The FNV-1a hash behind the model-file trust gate. */
module Fnv {
  import opened Words

  const OFFSET_BASIS := 0x811C_9DC5
  const PRIME := 0x0100_0193
  /** `PRIME * INVERSE` is 1 more than a multiple of 2^32. */
  const INVERSE := 0x359C_449B

  lemma XorInWord(h: Num32, b: Octet)
    ensures XorNat(h, b) < U32
  {
    Widths();
    XorNatBound(h, b, 32);
  }

  function Step(h: Num32, b: Octet): Num32 {
    XorNat(h, b) * PRIME % U32
  }

  function Unstep(g: nat, b: Octet): nat {
    XorNat(g * INVERSE % U32, b)
  }

  lemma MultipleVanishes(x: nat, t: int)
    requires x < U32
    ensures (x + t * U32) % U32 == x
  {
  }

  lemma MultiplyBack(x: nat, p: nat, q: nat, k: nat)
    requires x < U32 && p * q == 1 + k * U32
    ensures (x * p % U32) * q % U32 == x
  {
    var d, r := x * p / U32, x * p % U32;
    calc {
      r * q;
      { assert r == x * p - d * U32; }
      (x * p - d * U32) * q;
      x * p * q - d * U32 * q;
      { assert x * p * q == x * (p * q); }
      x * (1 + k * U32) - d * U32 * q;
      { assert d * U32 * q == d * q * U32 && x * (k * U32) == x * k * U32; }
      x + (x * k - d * q) * U32;
    }
    MultipleVanishes(x, x * k - d * q);
  }

  /** For every byte the step is a bijection on 32-bit values, because the prime is odd. */
  lemma StepBijective(h: Num32, b: Octet)
    ensures Unstep(Step(h, b), b) == h
    ensures Unstep(h, b) < U32 && Step(Unstep(h, b), b) == h
  {
    assert PRIME * INVERSE == 1 + 3513497 * U32;
    XorInWord(h, b);
    MultiplyBack(XorNat(h, b), PRIME, INVERSE, 3513497);
    XorNatTwice(h, b);
    XorInWord(h * INVERSE % U32, b);
    XorNatTwice(h * INVERSE % U32, b);
    MultiplyBack(h, INVERSE, PRIME, 3513497);
  }

  function HashFrom(h: Num32, data: seq<Octet>): Num32
    decreases |data|
  {
    if data == [] then h else HashFrom(Step(h, data[0]), data[1..])
  }

  function Fnv1a(data: seq<Octet>): Num32 {
    HashFrom(OFFSET_BASIS, data)
  }

  lemma {:induction false} HashSnoc(h: Num32, data: seq<Octet>, b: Octet)
    ensures HashFrom(h, data + [b]) == Step(HashFrom(h, data), b)
    decreases |data|
  {
    if data == [] {
      assert [b][1..] == [];
    } else {
      assert (data + [b])[1..] == data[1..] + [b];
      HashSnoc(Step(h, data[0]), data[1..], b);
    }
  }

  lemma {:induction false} HashConcat(h: Num32, m: seq<Octet>, n: seq<Octet>)
    ensures HashFrom(h, m + n) == HashFrom(HashFrom(h, m), n)
    decreases |m|
  {
    if m == [] {
      assert m + n == n;
    } else {
      assert (m + n)[1..] == m[1..] + n;
      HashConcat(Step(h, m[0]), m[1..], n);
    }
  }

  /** Whatever follows, different states stay different. */
  lemma {:induction false} StatesStayApart(g: Num32, h: Num32, data: seq<Octet>)
    requires g != h
    ensures HashFrom(g, data) != HashFrom(h, data)
    decreases |data|
  {
    if data != [] {
      StepBijective(g, data[0]);
      StepBijective(h, data[0]);
      StatesStayApart(Step(g, data[0]), Step(h, data[0]), data[1..]);
    }
  }

  lemma DifferentBytes(h: Num32, b: Octet, c: Octet)
    requires b != c
    ensures Step(h, b) != Step(h, c)
  {
    StepXor(h, b);
    StepXor(h, c);
    XorNatSymmetric(h, b);
    XorNatSymmetric(h, c);
    XorNatTwice(b, h);
    XorNatTwice(c, h);
  }

  /** The step keeps the XOR of state and byte. */
  lemma StepXor(h: Num32, b: Octet)
    ensures Step(h, b) * INVERSE % U32 == XorNat(h, b)
  {
    assert PRIME * INVERSE == 1 + 3513497 * U32;
    XorInWord(h, b);
    MultiplyBack(XorNat(h, b), PRIME, INVERSE, 3513497);
  }

  predicate DifferOnlyAt(a: seq<Octet>, b: seq<Octet>, i: nat) {
    |a| == |b| && i < |a| && a[i] != b[i] && forall j :: 0 <= j < |a| && j != i ==> a[j] == b[j]
  }

  /** Changing exactly one byte, at any position of a message of any length, changes the hash. */
  lemma OneByteDetected(a: seq<Octet>, b: seq<Octet>, i: nat)
    requires DifferOnlyAt(a, b, i)
    ensures Fnv1a(a) != Fnv1a(b)
  {
    var head, tail := a[..i], a[i + 1..];
    assert a == head + ([a[i]] + tail) && b == head + ([b[i]] + tail);
    HashConcat(OFFSET_BASIS, head, [a[i]] + tail);
    HashConcat(OFFSET_BASIS, head, [b[i]] + tail);
    var h := HashFrom(OFFSET_BASIS, head);
    HashHead(h, a[i], tail);
    HashHead(h, b[i], tail);
    DifferentBytes(h, a[i], b[i]);
    StatesStayApart(Step(h, a[i]), Step(h, b[i]), tail);
  }

  lemma HashHead(h: Num32, b: Octet, tail: seq<Octet>)
    ensures HashFrom(h, [b] + tail) == HashFrom(Step(h, b), tail)
  {
    assert ([b] + tail)[1..] == tail;
  }

  /** The host's loop: an unbounded product, then a mask. */
  method Fnv1a32(data: seq<Octet>) returns (h: nat)
    ensures h == Fnv1a(data)
  {
    h := OFFSET_BASIS;
    for i := 0 to |data|
      invariant h < U32 && h == HashFrom(OFFSET_BASIS, data[..i])
    {
      HashSnoc(OFFSET_BASIS, data[..i], data[i]);
      assert data[..i + 1] == data[..i] + [data[i]];
      h := XorNat(h, data[i]);
      h := h * PRIME % U32;
    }
    assert data[..|data|] == data;
  }

  /** Which hash it is: the offset basis and the rule for one more byte, in plain numbers. */
  lemma FnvRule(data: seq<Octet>, b: Octet)
    ensures Fnv1a([]) == 0x811C_9DC5
    ensures Fnv1a(data + [b]) == XorNat(Fnv1a(data), b) * 0x0100_0193 % 0x1_0000_0000
  {
    HashSnoc(OFFSET_BASIS, data, b);
  }

  // ---- the gate ----

  datatype Verdict = BadLength | TrustFail | TrustOk

  /** Only the first 20 bytes of the file are read, and only the first 16 are hashed. */
  function VerdictOf(file: seq<Octet>, anchor: nat): Verdict {
    if |file| < 20 then BadLength
    else if Fnv1a(file[..16]) != anchor then TrustFail
    else TrustOk
  }

  /** `cmd_tpu` up to the point where the fabric is programmed; `n` is what the read returned. */
  method TrustGate(buf: array<Octet>, n: int, anchor: nat, ghost file: seq<Octet>) returns (v: Verdict)
    requires buf.Length == 20 && n == (if |file| < 20 then |file| else 20) && buf[..n] == file[..n]
    ensures v == VerdictOf(file, anchor)
  {
    if n != 20 { return BadLength; }
    var h := OFFSET_BASIS;
    for i := 0 to 16
      invariant h < U32 && h == HashFrom(OFFSET_BASIS, file[..i])
    {
      assert buf[i] == buf[..n][i] == file[i];
      HashSnoc(OFFSET_BASIS, file[..i], file[i]);
      assert file[..i + 1] == file[..i] + [file[i]];
      h := XorNat(h, buf[i]);
      h := h * PRIME % U32;
    }
    v := if h != anchor then TrustFail else TrustOk;
  }

  /** With the anchor the host computed, the model passes with any input vector, and with any one
      of its 16 weights changed it fails with every input vector. */
  lemma GateDetects(model: seq<Octet>, tampered: seq<Octet>, input: seq<Octet>, i: nat)
    requires |model| == 16 && |input| >= 4
    ensures VerdictOf(model + input, Fnv1a(model)) == TrustOk
    ensures DifferOnlyAt(model, tampered, i) ==> VerdictOf(tampered + input, Fnv1a(model)) == TrustFail
    ensures forall file: seq<Octet>, anchor :: VerdictOf(file, anchor) == BadLength <==> |file| < 16 + 4
  {
    assert (model + input)[..16] == model;
    if DifferOnlyAt(model, tampered, i) {
      assert (tampered + input)[..16] == tampered;
      OneByteDetected(model, tampered, i);
    }
  }
}
