/**
 The configuration image: 1752 frames of 210 bytes after a 32-byte preamble. Frames 25 to
 1751 end in a two-byte CRC of their first 208 bytes; the rest of the image has none.
 */
module Frames {
  import opened Words
  import Crc
  import opened CrcNumbers

  const FRAME_SIZE := 210
  const DATA_SIZE := 208
  const PREAMBLE := 32
  const FIRST_FRAME := 25
  const LAST_FRAME := 1751
  const CRAM_START := 5282
  const CRAM_END := 367952
  const BITMAP_BYTES := 216

  const POLY: Word16 := OfNat(16, 0xA001)
  const INIT: Word16 := OfNat(16, 0xFE54)

  type Image = seq<Byte>

  predicate Covers(s: Image) {
    |s| >= CRAM_END
  }

  predicate CramFrame(f: nat) {
    FIRST_FRAME <= f <= LAST_FRAME
  }

  function FrameStart(f: nat): nat {
    PREAMBLE + f * FRAME_SIZE
  }

  /** Byte a lies in a frame that carries a CRC. */
  predicate InCram(a: nat) {
    CRAM_START <= a < CRAM_END
  }

  function FrameOf(a: nat): nat
    requires InCram(a)
  {
    (a - PREAMBLE) / FRAME_SIZE
  }

  predicate IsCrcByte(a: nat) {
    InCram(a) && (a - PREAMBLE) % FRAME_SIZE >= DATA_SIZE
  }

  /** `c & 0xFF` */
  function Low(c: Word16): Byte {
    seq(8, i requires 0 <= i < 8 => c[i])
  }

  /** `(c >> 8) & 0xFF` */
  function High(c: Word16): Byte {
    seq(8, i requires 0 <= i < 8 => c[i + 8])
  }

  function FrameCrc(s: Image, f: nat): Word16
    requires Covers(s) && CramFrame(f)
  {
    Crc.Run(POLY, INIT, s[FrameStart(f)..FrameStart(f) + DATA_SIZE])
  }

  /** What CRC byte a should hold: low byte first. */
  function CrcByte(s: Image, a: nat): Byte
    requires Covers(s) && IsCrcByte(a)
  {
    var c := FrameCrc(s, FrameOf(a));
    if (a - PREAMBLE) % FRAME_SIZE == DATA_SIZE then Low(c) else High(c)
  }

  /** The image with the CRC bytes of the frames in `d` recomputed. */
  function RepairSome(s: Image, d: set<nat>): (r: Image)
    requires Covers(s)
    ensures |r| == |s|
  {
    seq(|s|, a requires 0 <= a < |s| => if IsCrcByte(a) && FrameOf(a) in d then CrcByte(s, a) else s[a])
  }

  function AllFrames(): set<nat> {
    set f: nat | f <= LAST_FRAME && CramFrame(f)
  }

  function Repair(s: Image): (r: Image)
    requires Covers(s)
    ensures |r| == |s|
  {
    RepairSome(s, AllFrames())
  }

  /** The check the device makes on configuration: every stored CRC is right. */
  ghost predicate Consistent(s: Image)
    requires Covers(s)
  {
    forall f | CramFrame(f) ::
      && s[FrameStart(f) + DATA_SIZE] == Low(FrameCrc(s, f))
      && s[FrameStart(f) + DATA_SIZE + 1] == High(FrameCrc(s, f))
  }

  // ---- arithmetic of the frame grid ----

  lemma FrameGrid(a: nat)
    requires InCram(a)
    ensures CramFrame(FrameOf(a))
    ensures FrameStart(FrameOf(a)) <= a < FrameStart(FrameOf(a)) + FRAME_SIZE
    ensures IsCrcByte(a) <==> FrameStart(FrameOf(a)) + DATA_SIZE <= a
    ensures a - FrameStart(FrameOf(a)) == (a - PREAMBLE) % FRAME_SIZE
  {
  }

  lemma GridFrame(f: nat, j: nat)
    requires CramFrame(f) && j < FRAME_SIZE
    ensures InCram(FrameStart(f) + j) && FrameOf(FrameStart(f) + j) == f
    ensures (FrameStart(f) + j - PREAMBLE) % FRAME_SIZE == j
    ensures IsCrcByte(FrameStart(f) + j) <==> j >= DATA_SIZE
  {
  }

  // ---- repair ----

  /** Frame CRCs are functions of the data bytes alone. */
  lemma SameDataSameCrc(s: Image, t: Image, f: nat)
    requires Covers(s) && Covers(t) && CramFrame(f)
    requires forall a :: FrameStart(f) <= a < FrameStart(f) + DATA_SIZE ==> s[a] == t[a]
    ensures FrameCrc(s, f) == FrameCrc(t, f)
  {
    var lo := FrameStart(f);
    assert s[lo..lo + DATA_SIZE] == t[lo..lo + DATA_SIZE];
  }

  lemma RepairKeepsCrc(s: Image, d: set<nat>, f: nat)
    requires Covers(s) && CramFrame(f)
    ensures FrameCrc(RepairSome(s, d), f) == FrameCrc(s, f)
  {
    forall a | FrameStart(f) <= a < FrameStart(f) + DATA_SIZE
      ensures RepairSome(s, d)[a] == s[a]
    {
      GridFrame(f, a - FrameStart(f));
    }
    SameDataSameCrc(RepairSome(s, d), s, f);
  }

  lemma RepairedFrame(s: Image, f: nat)
    requires Covers(s) && CramFrame(f)
    ensures Repair(s)[FrameStart(f) + DATA_SIZE] == Low(FrameCrc(s, f))
    ensures Repair(s)[FrameStart(f) + DATA_SIZE + 1] == High(FrameCrc(s, f))
  {
    GridFrame(f, DATA_SIZE);
    GridFrame(f, DATA_SIZE + 1);
  }

  /** A full repair always yields an image the device accepts. */
  lemma RepairConsistent(s: Image)
    requires Covers(s)
    ensures Consistent(Repair(s))
  {
    forall f | CramFrame(f)
      ensures Repair(s)[FrameStart(f) + DATA_SIZE] == Low(FrameCrc(Repair(s), f))
      ensures Repair(s)[FrameStart(f) + DATA_SIZE + 1] == High(FrameCrc(Repair(s), f))
    {
      RepairKeepsCrc(s, AllFrames(), f);
      RepairedFrame(s, f);
    }
  }

  /** On a consistent image every CRC byte already holds its value. */
  lemma ConsistentByte(s: Image, a: nat)
    requires Covers(s) && Consistent(s) && IsCrcByte(a)
    ensures s[a] == CrcByte(s, a)
  {
    FrameGrid(a);
    assert CramFrame(FrameOf(a));
  }

  /** The images a full repair leaves alone are exactly the accepted ones. */
  lemma RepairFixpoint(s: Image)
    requires Covers(s)
    ensures Repair(s) == s <==> Consistent(s)
  {
    if Repair(s) == s {
      RepairConsistent(s);
    }
    if Consistent(s) {
      forall a | 0 <= a < |s| ensures Repair(s)[a] == s[a] {
        if IsCrcByte(a) {
          ConsistentByte(s, a);
        }
      }
    }
  }

  /** A full repair forgets the old CRC bytes and nothing else. */
  lemma RepairEqual(s: Image, t: Image)
    requires Covers(s) && |s| == |t|
    ensures Repair(s) == Repair(t) <==> forall a :: 0 <= a < |s| && !IsCrcByte(a) ==> s[a] == t[a]
  {
    if Repair(s) == Repair(t) {
      forall a | 0 <= a < |s| && !IsCrcByte(a) ensures s[a] == t[a] {
        assert Repair(s)[a] == Repair(t)[a];
      }
    } else {
      if forall a :: 0 <= a < |s| && !IsCrcByte(a) ==> s[a] == t[a] {
        forall a | 0 <= a < |s| ensures Repair(s)[a] == Repair(t)[a] {
          RepairedByte(s, t, a);
        }
      }
    }
  }

  lemma RepairedByte(s: Image, t: Image, a: nat)
    requires Covers(s) && |s| == |t| && a < |s|
    requires forall b :: 0 <= b < |s| && !IsCrcByte(b) ==> s[b] == t[b]
    ensures Repair(s)[a] == Repair(t)[a]
  {
    if IsCrcByte(a) {
      FrameGrid(a);
      var f := FrameOf(a);
      forall b | FrameStart(f) <= b < FrameStart(f) + DATA_SIZE ensures s[b] == t[b] {
        GridFrame(f, b - FrameStart(f));
      }
      SameDataSameCrc(s, t, f);
    }
  }

  /** Repairing the dirty frames alone equals repairing all, if the image was consistent before
      the edits and every frame that changed anywhere, CRC bytes included, is dirty. */
  lemma FastRefinesSlow(base: Image, s: Image, d: set<nat>)
    requires Covers(base) && Consistent(base) && |s| == |base|
    requires forall a :: 0 <= a < |s| && InCram(a) && FrameOf(a) !in d ==> s[a] == base[a]
    ensures RepairSome(s, d) == Repair(s)
  {
    forall a | 0 <= a < |s| ensures RepairSome(s, d)[a] == Repair(s)[a] {
      if IsCrcByte(a) && FrameOf(a) !in d {
        var f := FrameOf(a);
        FrameGrid(a);
        forall b | FrameStart(f) <= b < FrameStart(f) + DATA_SIZE ensures s[b] == base[b] {
          GridFrame(f, b - FrameStart(f));
        }
        SameDataSameCrc(s, base, f);
        ConsistentByte(base, a);
      }
    }
  }

  // ---- crc16.c ----

  method Crc16RbfFrame(rbf: array<Byte>, data: nat) returns (crc: Word16)
    requires data + DATA_SIZE <= rbf.Length
    ensures crc == Crc.Run(POLY, INIT, rbf[data..data + DATA_SIZE])
    ensures ToNat(crc) == CrcNat(0xA001, 0xFE54, Numbers(rbf[data..data + 208]))
  {
    FrameCrcNumber(rbf[data..data + DATA_SIZE]);
    crc := INIT;
    for i := 0 to DATA_SIZE
      invariant crc == Crc.Run(POLY, INIT, rbf[data..data + i])
    {
      crc := BranchedClocks(POLY, Crc.XorLow(crc, rbf[data + i]), rbf[data + i]);
      Crc.RunByte(POLY, INIT, rbf[data..data + i], rbf[data + i]);
      assert rbf[data..data + i] + [rbf[data + i]] == rbf[data..data + i + 1];
    }
  }

  /** The eight shifts for one byte. */
  method BranchedClocks(poly: Word16, mixed: Word16, ghost d: Byte) returns (crc: Word16)
    ensures crc == Crc.Steps(poly, mixed, d)
  {
    crc := mixed;
    for k := 0 to 8
      invariant Crc.Steps(poly, crc, d[k..]) == Crc.Steps(poly, mixed, d)
    {
      ghost var c := crc;
      if crc[0] {
        crc := Xor(Shr1(crc), poly);
      } else {
        crc := Shr1(crc);
      }
      assert crc == Crc.Step(poly, c);
      assert d[k..][1..] == d[k + 1..];
    }
  }

  method WriteCrc(rbf: array<Byte>, frame: nat)
    requires CramFrame(frame) && rbf.Length >= CRAM_END
    modifies rbf
    ensures rbf[..] == RepairSome(old(rbf[..]), {frame})
  {
    var s := PREAMBLE + frame * FRAME_SIZE;
    var c := Crc16RbfFrame(rbf, s);
    ghost var was := rbf[..];
    assert was[s..s + DATA_SIZE] == rbf[s..s + DATA_SIZE];
    rbf[s + DATA_SIZE] := Low(c);
    rbf[s + DATA_SIZE + 1] := High(c);
    OneFrame(was, frame);
    assert rbf[..] == was[s + DATA_SIZE := Low(c)][s + DATA_SIZE + 1 := High(c)];
  }

  lemma OneFrame(s: Image, f: nat)
    requires Covers(s) && CramFrame(f)
    ensures s[FrameStart(f) + DATA_SIZE := Low(FrameCrc(s, f))][FrameStart(f) + DATA_SIZE + 1 := High(FrameCrc(s, f))]
      == RepairSome(s, {f})
  {
    GridFrame(f, DATA_SIZE);
    GridFrame(f, DATA_SIZE + 1);
    var lo, hi := FrameStart(f) + DATA_SIZE, FrameStart(f) + DATA_SIZE + 1;
    forall a | InCram(a) ensures FrameOf(a) == f && IsCrcByte(a) <==> a == lo || a == hi {
      FrameGrid(a);
    }
  }

  /** Repairing in two instalments is repairing the union. */
  lemma RepairUnion(s: Image, d: set<nat>, e: set<nat>)
    requires Covers(s)
    ensures RepairSome(RepairSome(s, d), e) == RepairSome(s, d + e)
  {
    forall a | 0 <= a < |s| ensures RepairSome(RepairSome(s, d), e)[a] == RepairSome(s, d + e)[a] {
      if IsCrcByte(a) {
        FrameGrid(a);
        RepairKeepsCrc(s, d, FrameOf(a));
      }
    }
  }

  function FramesBelow(f: nat): set<nat> {
    set g: nat | g < f && CramFrame(g)
  }

  method LcPatchRbfCrc(rbf: array<Byte>)
    requires rbf.Length >= CRAM_END
    modifies rbf
    ensures rbf[..] == Repair(old(rbf[..]))
  {
    ghost var was := rbf[..];
    assert was == RepairSome(was, {});
    var frame := FIRST_FRAME;
    while frame <= LAST_FRAME
      invariant FIRST_FRAME <= frame <= LAST_FRAME + 1
      invariant rbf[..] == RepairSome(was, FramesBelow(frame))
    {
      WriteCrc(rbf, frame);
      RepairUnion(was, FramesBelow(frame), {frame});
      frame := frame + 1;
      assert FramesBelow(frame) == FramesBelow(frame - 1) + {frame - 1};
    }
    assert FramesBelow(frame) == AllFrames();
  }

  // ---- the dirty bitmap ----

  /** Frames marked in a bitmap: bit i stands for frame 25 + i. */
  function DirtyFrames(bitmap: seq<Byte>): set<nat>
    requires |bitmap| == BITMAP_BYTES
  {
    set f: nat | f <= LAST_FRAME && CramFrame(f) && Marked(bitmap, f)
  }

  predicate Marked(bitmap: seq<Byte>, f: nat)
    requires |bitmap| == BITMAP_BYTES && CramFrame(f)
  {
    bitmap[(f - FIRST_FRAME) / 8][(f - FIRST_FRAME) % 8]
  }

  method LcPatchRbfCrcFrames(rbf: array<Byte>, dirty: array<Byte>)
    requires rbf.Length >= CRAM_END && dirty.Length == BITMAP_BYTES && rbf != dirty
    modifies rbf
    ensures rbf[..] == RepairSome(old(rbf[..]), DirtyFrames(dirty[..]))
  {
    ghost var was := rbf[..];
    ghost var d := DirtyFrames(dirty[..]);
    assert was == RepairSome(was, d * FramesBelow(FIRST_FRAME));
    var frame := FIRST_FRAME;
    while frame <= LAST_FRAME
      invariant FIRST_FRAME <= frame <= LAST_FRAME + 1
      invariant rbf[..] == RepairSome(was, d * FramesBelow(frame))
    {
      var idx := frame - FIRST_FRAME;
      ghost var done := d * FramesBelow(frame);
      if dirty[idx / 8][idx % 8] {
        WriteCrc(rbf, frame);
        RepairUnion(was, done, {frame});
        assert d * FramesBelow(frame + 1) == done + {frame};
      } else {
        assert d * FramesBelow(frame + 1) == done;
      }
      frame := frame + 1;
    }
    assert d * FramesBelow(frame) == d;
  }

  /** The frames that an edit of byte `off` makes dirty: none outside the CRC-carrying frames. */
  function Touched(off: nat): set<nat> {
    if InCram(off) then {FrameOf(off)} else {}
  }

  method LcMarkDirty(bitmap: array<Byte>, off: nat)
    requires bitmap.Length == BITMAP_BYTES
    modifies bitmap
    ensures DirtyFrames(bitmap[..]) == DirtyFrames(old(bitmap[..])) + Touched(off)
  {
    if off < PREAMBLE {
      return;
    }
    var rel := off - PREAMBLE;
    var frame := rel / FRAME_SIZE;
    if frame < FIRST_FRAME || frame > LAST_FRAME {
      return;
    }
    var idx := frame - FIRST_FRAME;
    bitmap[idx / 8] := Or(bitmap[idx / 8], OneHot(8, idx % 8));
    assert InCram(off) && FrameOf(off) == frame;
    assert forall f: nat | CramFrame(f) ::
        Marked(bitmap[..], f) == (Marked(old(bitmap[..]), f) || f == frame);
  }

  // ---- in numbers ----

  lemma FrameConstants()
    ensures Crc.IsPoly(POLY) && ToNat(POLY) == 0xA001 && ToNat(INIT) == 0xFE54
  {
    Widths();
    ToNatOfNat(16, 0xA001);
    ToNatOfNat(16, 0xFE54);
    TopBit(POLY);
  }

  /** Which CRC it is: start at 0xFE54, reflected polynomial 0xA001, no final XOR. */
  lemma FrameCrcNumber(m: seq<Byte>)
    ensures ToNat(Crc.Run(POLY, INIT, m)) == CrcNat(0xA001, 0xFE54, Numbers(m))
  {
    FrameConstants();
    RunNumber(POLY, INIT, m);
  }

  lemma HalvesNumber(c: Word16)
    ensures ToNat(Low(c)) + 0x100 * ToNat(High(c)) == ToNat(c)
  {
    ToNatPrefix(c, 0, Low(c));
    ToNatPrefix(c, 8, High(c));
  }

  lemma RepairedEnd(s: Image, d: set<nat>, f: nat)
    requires Covers(s) && CramFrame(f) && f in d
    ensures RepairSome(s, d)[FrameStart(f) + DATA_SIZE] == Low(FrameCrc(RepairSome(s, d), f))
    ensures RepairSome(s, d)[FrameStart(f) + DATA_SIZE + 1] == High(FrameCrc(RepairSome(s, d), f))
  {
    GridFrame(f, DATA_SIZE);
    GridFrame(f, DATA_SIZE + 1);
    RepairKeepsCrc(s, d, f);
  }

  /** A repair in numbers alone, of any frames and so of all: frames 25 to 1751 of 210 bytes after 32
      others end in the CRC of their first 208 bytes, low byte first. */
  lemma RepairInNumbers(s: Image, d: set<nat>, f: nat)
    requires |s| >= 367952 && 25 <= f <= 1751 && f in d
    ensures var a, r := 32 + 210 * f, RepairSome(s, d);
      ToNat(r[a + 208]) + 256 * ToNat(r[a + 209]) == CrcNat(0xA001, 0xFE54, Numbers(r[a..a + 208]))
  {
    RepairedEnd(s, d, f);
    HalvesNumber(FrameCrc(RepairSome(s, d), f));
    FrameCrcNumber(RepairSome(s, d)[FrameStart(f)..FrameStart(f) + DATA_SIZE]);
  }

  /** Nothing but these bytes ever changes. */
  lemma RepairKeeps(s: Image, d: set<nat>, a: nat)
    requires |s| >= 367952 && a < |s|
    ensures RepairSome(s, d)[a] != s[a] ==>
      exists f :: f in d && 25 <= f <= 1751 && (a == 32 + 210 * f + 208 || a == 32 + 210 * f + 209)
  {
    if RepairSome(s, d)[a] != s[a] {
      FrameGrid(a);
      assert FrameOf(a) in d;
    }
  }

  /** A full repair is the repair of frames 25 to 1751. */
  lemma RepairIsAll(s: Image, d: set<nat>)
    requires |s| >= 367952 && forall f :: 25 <= f <= 1751 ==> f in d
    ensures Repair(s) == RepairSome(s, d)
  {
    forall a | 0 <= a < |s| ensures Repair(s)[a] == RepairSome(s, d)[a] {
      if IsCrcByte(a) {
        FrameGrid(a);
      }
    }
  }
}
