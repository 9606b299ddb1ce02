/** The edit-list file byte by byte: which files the host parser and the on-chip gate accept. */
module EditsNumbers {
  import opened Words
  import opened CrcNumbers
  import opened Editor
  import opened EditsBin

  lemma ByteRange(b: Byte)
    ensures ToNat(b) < 0x100
  {
    assert Pow2(8) == 0x100;
    ToNatBound(b, 0);
  }

  /** The 16-bit and 32-bit numbers at offset i, low byte first. */
  function Le16(m: seq<nat>, i: nat): nat
    requires i + 2 <= |m|
  {
    m[i] + 0x100 * m[i + 1]
  }

  function Le32(m: seq<nat>, i: nat): nat
    requires i + 4 <= |m|
  {
    Le16(m, i) + 0x1_0000 * Le16(m, i + 2)
  }

  lemma Word2Number(b0: Byte, b1: Byte)
    ensures ToNat(Word2(b0, b1)) == ToNat(b0) + 0x100 * ToNat(b1)
  {
    var w := Word2(b0, b1);
    ToNatPrefix(w, 0, b0);
    ToNatPrefix(w, 8, b1);
  }

  lemma Word4Number(b0: Byte, b1: Byte, b2: Byte, b3: Byte)
    ensures ToNat(Word4(b0, b1, b2, b3))
      == ToNat(b0) + 0x100 * ToNat(b1) + 0x1_0000 * ToNat(b2) + 0x100_0000 * ToNat(b3)
  {
    var w := Word4(b0, b1, b2, b3);
    ToNatPrefix(w, 0, b0);
    ToNatPrefix(w, 8, b1);
    ToNatPrefix(w, 16, b2);
    ToNatPrefix(w, 24, b3);
  }

  lemma Get32Number(b: seq<Byte>, i: nat)
    requires i + 4 <= |b|
    ensures Get32(b, i) == Le32(Numbers(b), i)
  {
    Word4Number(b[i], b[i + 1], b[i + 2], b[i + 3]);
  }

  lemma HeaderNumbers(b: seq<Byte>)
    requires |b| >= 16
    ensures var m, h := Numbers(b), HeaderOf(b);
      h.magic == Le32(m, 0) && h.version == Le32(m, 4) && h.count == Le32(m, 8) && h.crc == Le32(m, 12)
  {
    Get32Number(b, 0);
    Get32Number(b, 4);
    Get32Number(b, 8);
    Get32Number(b, 12);
  }

  /** The record at offset `off` of a file: x, y, n and mask, two bytes each. */
  predicate RecordReads(r: Record, m: seq<nat>, off: nat) {
    && off + 8 <= |m|
    && r.x == Le16(m, off) && r.y == Le16(m, off + 2) && r.n == Le16(m, off + 4)
    && ToNat(r.mask) == Le16(m, off + 6)
  }

  lemma RecordNumbers(b: seq<Byte>, off: nat)
    requires off + 8 <= |b|
    ensures RecordReads(RecordAt(b, off), Numbers(b), off)
  {
    Word2Number(b[off], b[off + 1]);
    Word2Number(b[off + 2], b[off + 3]);
    Word2Number(b[off + 4], b[off + 5]);
    Word2Number(b[off + 6], b[off + 7]);
  }

  /** IEEE CRC-32 of plain bytes. */
  function IeeeCrc(m: seq<nat>): int {
    0xFFFF_FFFF - CrcNat(0xEDB8_8320, 0xFFFF_FFFF, m)
  }

  lemma PayloadNumbers(b: seq<Byte>, body: seq<Byte>)
    requires |b| >= 16
    ensures CrcOk(EDITS, HeaderOf(b), body) <==> Le32(Numbers(b), 12) == IeeeCrc(Numbers(b)[4..12] + Numbers(body))
  {
    HeaderNumbers(b);
    HeaderEncodes(b);
    Crc32Number(b[4..12] + body);
    assert Numbers(b[4..12] + body) == Numbers(b)[4..12] + Numbers(body);
  }

  lemma FourBytes(a: nat, b: nat, c: nat, d: nat)
    requires a < 0x100 && b < 0x100 && c < 0x100 && d < 0x100
    ensures a + 0x100 * b + 0x1_0000 * (c + 0x100 * d) == 0x5449_4445
      <==> a == 0x45 && b == 0x44 && c == 0x49 && d == 0x54
  {
  }

  /** The file starts with the letters "EDIT". */
  lemma MagicBytes(b: seq<Byte>)
    requires |b| >= 16
    ensures HeaderOf(b).magic == EDITS.magic <==> Numbers(b)[..4] == [0x45, 0x44, 0x49, 0x54]
  {
    HeaderNumbers(b);
    ByteRange(b[0]);
    ByteRange(b[1]);
    ByteRange(b[2]);
    ByteRange(b[3]);
    var m := Numbers(b);
    FourBytes(m[0], m[1], m[2], m[3]);
    assert m[..4] == [m[0], m[1], m[2], m[3]];
  }

  /** The file or the loaded header starts with "EDIT" and version 1. */
  predicate Magic(m: seq<nat>)
    requires |m| >= 16
  {
    m[..4] == [0x45, 0x44, 0x49, 0x54]
  }

  predicate Version1(m: seq<nat>)
    requires |m| >= 16
  {
    Magic(m) && Le32(m, 4) == 1
  }

  /** The checksum at offset 12 is that of the eight bytes before it and the records. */
  predicate Checked(m: seq<nat>, records: seq<nat>)
    requires |m| >= 16
  {
    Le32(m, 12) == IeeeCrc(m[4..12] + records)
  }

  /** Version 1 and room for the declared number of records. */
  predicate Complete(m: seq<nat>) {
    |m| >= 16 && Version1(m) && |m| >= 16 + 8 * Le32(m, 8)
  }

  lemma NumbersSlice(b: seq<Byte>, i: nat, j: nat)
    requires i <= j <= |b|
    ensures Numbers(b[i..j]) == Numbers(b)[i..j]
  {
  }

  lemma BodyNumbers(blob: seq<Byte>, n: nat)
    requires 16 + 8 * n <= |blob|
    ensures Numbers(blob[16..16 + 8 * n]) == Numbers(blob)[16..16 + 8 * n]
    ensures forall i :: 0 <= i < n ==> RecordReads(Records(blob[16..16 + 8 * n], n)[i], Numbers(blob), 16 + 8 * i)
  {
    var body, m := blob[16..16 + 8 * n], Numbers(blob);
    NumbersSlice(blob, 16, 16 + 8 * n);
    forall i | 0 <= i < n ensures RecordReads(Records(body, n)[i], m, 16 + 8 * i) {
      RecordInside(blob, n, i);
      RecordNumbers(blob, 16 + 8 * i);
    }
  }

  lemma RecordInside(blob: seq<Byte>, n: nat, i: nat)
    requires 16 + 8 * n <= |blob| && i < n
    ensures RecordAt(blob[16..16 + 8 * n], 8 * i) == RecordAt(blob, 16 + 8 * i)
  {
  }

  /** The host parser: every verdict exactly when its condition on the bytes holds. */
  lemma ParseInNumbers(blob: seq<Byte>)
    ensures var m := Numbers(blob);
      match Parse(EDITS, blob)
      case TooShort => |m| < 16
      case BadMagic => |m| >= 16 && !Magic(m)
      case BadVersion => |m| >= 16 && Magic(m) && !Version1(m)
      case Truncated => |m| >= 16 && Version1(m) && !Complete(m)
      case CrcMismatch => Complete(m) && !Checked(m, m[16..16 + 8 * Le32(m, 8)])
      case Parsed(rs) =>
        && Complete(m) && Checked(m, m[16..16 + 8 * Le32(m, 8)])
        && |rs| == Le32(m, 8) && forall i :: 0 <= i < |rs| ==> RecordReads(rs[i], m, 16 + 8 * i)
  {
    if |blob| >= 16 {
      var n: nat := HeaderOf(blob).count;
      HeaderNumbers(blob);
      MagicBytes(blob);
      if |blob| >= 16 + 8 * n {
        PayloadNumbers(blob, blob[16..16 + 8 * n]);
        BodyNumbers(blob, n);
      }
    }
  }

  lemma HeaderTests(b: seq<Byte>)
    requires |b| >= 16
    ensures var m, h := Numbers(b), HeaderOf(b);
      && (h.magic == EDITS.magic <==> Magic(m))
      && (h.magic == EDITS.magic && h.version == EDITS.version <==> Version1(m))
      && h.count == Le32(m, 8)
  {
    HeaderNumbers(b);
    MagicBytes(b);
  }

  lemma GateBodyInNumbers(head: seq<Byte>, size: nat, records: seq<Byte>)
    requires |head| == 16
    ensures var m, r := Numbers(head), Numbers(records);
      var fits := (16 + 8 * Le32(m, 8)) % 0x1_0000_0000 <= size;
      match GateBody(EDITS, HeaderOf(head), size, records)
      case GateMagic => !Magic(m)
      case GateVersion => Magic(m) && !Version1(m)
      case GateTruncated => Version1(m) && !fits
      case GateCrc => Version1(m) && fits && !Checked(m, r)
      case Open(n) => Version1(m) && fits && Checked(m, r) && n == Le32(m, 8)
      case _ => false
  {
    HeaderTests(head);
    PayloadNumbers(head, records);
  }

  /** The gate on the file at address e: every verdict exactly when its condition on the bytes holds.
      Sizes are computed in 32 bits. */
  lemma GateInNumbers(mem: seq<Byte>, e: nat, size: nat)
    requires |mem| == U32 && size < U32
    ensures var m := Numbers(Load(mem, e, 16));
      var r, fits := Numbers(Load(mem, e + 16, Le32(m, 8) * 8 % U32)), (16 + 8 * Le32(m, 8)) % U32 <= size;
      match ChipGate(EDITS, mem, e, size)
      case NoEdits => size == 0
      case HeaderShort => 0 < size < 16
      case GateMagic => size >= 16 && !Magic(m)
      case GateVersion => size >= 16 && Magic(m) && !Version1(m)
      case GateTruncated => size >= 16 && Version1(m) && !fits
      case GateCrc => size >= 16 && Version1(m) && fits && !Checked(m, r)
      case Open(n) => size >= 16 && Version1(m) && fits && Checked(m, r) && n == Le32(m, 8)
  {
    var head := Load(mem, e, 16);
    HeaderNumbers(head);
    GateBodyInNumbers(head, size, Load(mem, e + 16, HeaderOf(head).count * 8 % U32));
  }
}
