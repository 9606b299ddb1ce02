/**
 The edit-list file: a 16-byte header (magic, version, record count, CRC-32) and 8-byte
 records, all fields little-endian. The CRC covers version, count and records.
 */
module EditsBin {
  import opened Words
  import Crc
  import opened CrcNumbers
  import opened LutCodec
  import opened Geometry
  import opened Editor

  const POLY: Word32 := OfNat(32, 0xEDB8_8320)
  const ONES: Word32 := OfNat(32, 0xFFFF_FFFF)

  // ---- CRC-32 ----

  /** The frame check sequence of IEEE 802.3, as a shift register over the message bits. */
  function Crc32(m: seq<Byte>): Word32 {
    Not(Crc.Run(POLY, ONES, m))
  }

  /** Nothing about the layout depends on these three, so the layout theory leaves them open. */
  datatype Format = Format(magic: Num32, version: Num32, crc: seq<Byte> -> Num32)

  /** The magic is 'E' 'D' 'I' 'T' on the wire. */
  const EDITS := Format(0x5449_4445, 1, Crc32Nat)

  ghost predicate UsesCrc32(fmt: Format) {
    forall m :: fmt.crc(m) == Crc32Nat(m)
  }

  lemma EditsUsesCrc32()
    ensures UsesCrc32(EDITS)
  {
  }

  function Crc32Nat(m: seq<Byte>): Num32 {
    Widths();
    ToNatBound(Crc32(m), 0);
    ToNat(Crc32(m))
  }

  lemma Crc32Constants()
    ensures Crc.IsPoly(POLY) && ToNat(POLY) == 0xEDB8_8320 && ToNat(ONES) == 0xFFFF_FFFF
  {
    Widths();
    ToNatOfNat(32, 0xEDB8_8320);
    ToNatOfNat(32, 0xFFFF_FFFF);
    TopBit(POLY);
  }

  lemma NotNumber(a: Word32)
    ensures ToNat(Not(a)) == 0xFFFF_FFFF - ToNat(a)
  {
    Widths();
    ToNatNot(a, 0);
  }

  /** Which CRC it is: reflected polynomial 0xEDB88320, all ones before and after. */
  lemma Crc32Number(m: seq<Byte>)
    ensures Crc32Nat(m) == 0xFFFF_FFFF - CrcNat(0xEDB8_8320, 0xFFFF_FFFF, Numbers(m))
  {
    Crc32Constants();
    RunNumber(POLY, ONES, m);
    NotNumber(Crc.Run(POLY, ONES, m));
  }

  method Crc32Update(crc: Word32, data: seq<Byte>) returns (r: Word32)
    ensures r == Crc.Run(POLY, crc, data)
  {
    r := crc;
    assert data[..0] == [];
    for i := 0 to |data|
      invariant r == Crc.Run(POLY, crc, data[..i])
    {
      r := MaskedClocks(POLY, Crc.XorLow(r, data[i]), data[i]);
      Crc.RunByte(POLY, crc, data[..i], data[i]);
      assert data[..i] + [data[i]] == data[..i + 1];
    }
    assert data[..|data|] == data;
  }

  method MaskedClocks(poly: Word32, mixed: Word32, ghost d: Byte) returns (crc: Word32)
    ensures crc == Crc.Steps(poly, mixed, d)
  {
    crc := mixed;
    for j := 0 to 8
      invariant Crc.Steps(poly, crc, d[j..]) == Crc.Steps(poly, mixed, d)
    {
      crc := Clock(poly, crc);
      assert d[j..][1..] == d[j + 1..];
    }
  }

  /** `(crc >> 1) ^ (poly & -(crc & 1))` */
  method Clock(poly: Word32, c: Word32) returns (r: Word32)
    ensures r == Crc.Step(poly, c)
  {
    r := Xor(Shr1(c), if c[0] then poly else Zeros(32));
    assert forall i :: 0 <= i < 32 ==> r[i] == Crc.Step(poly, c)[i];
  }

  method Crc32OneShot(data: seq<Byte>) returns (r: Word32)
    ensures r == Crc32(data)
  {
    var crc := Crc32Update(ONES, data);
    r := Not(crc);
  }

  /** Two ranges with a gap between them: the CRC of their concatenation. */
  method Crc32Two(p1: seq<Byte>, p2: seq<Byte>) returns (r: Word32)
    ensures r == Crc32(p1 + p2)
  {
    var crc := Crc32Update(ONES, p1);
    crc := Crc32Update(crc, p2);
    Crc.RunConcat(POLY, ONES, p1, p2);
    r := Not(crc);
  }

  // ---- fields ----

  function Word2(b0: Byte, b1: Byte): Word16 {
    var lo: Word := b0;
    lo + b1
  }

  function Bytes2(w: Word16): (b: seq<Byte>)
    ensures |b| == 2
  {
    [w[..8], w[8..]]
  }

  lemma Field2(w: Word16, b0: Byte, b1: Byte)
    ensures Word2(Bytes2(w)[0], Bytes2(w)[1]) == w
    ensures Bytes2(Word2(b0, b1)) == [b0, b1]
  {
  }

  function Word4(b0: Byte, b1: Byte, b2: Byte, b3: Byte): Word32 {
    var lo: Word := b0;
    lo + b1 + b2 + b3
  }

  function Bytes4(w: Word32): (b: seq<Byte>)
    ensures |b| == 4
  {
    [w[..8], w[8..16], w[16..24], w[24..]]
  }

  lemma Word4Bytes4(w: Word32)
    ensures var b := Bytes4(w); Word4(b[0], b[1], b[2], b[3]) == w
  {
  }

  lemma Bytes4Word4(b0: Byte, b1: Byte, b2: Byte, b3: Byte)
    ensures Bytes4(Word4(b0, b1, b2, b3)) == [b0, b1, b2, b3]
  {
    var w := Word4(b0, b1, b2, b3);
    assert w[..8] == b0 && w[8..16] == b1 && w[16..24] == b2 && w[24..] == b3;
  }

  /** `struct.pack("<I", v)` */
  function Put32(v: Num32): (b: seq<Byte>)
    ensures |b| == 4
  {
    Bytes4(OfNat(32, v))
  }

  /** The little-endian field at offset i. */
  function Get32(b: seq<Byte>, i: nat): Num32
    requires i + 4 <= |b|
  {
    Widths();
    ToNatBound(Word4(b[i], b[i + 1], b[i + 2], b[i + 3]), 0);
    ToNat(Word4(b[i], b[i + 1], b[i + 2], b[i + 3]))
  }

  lemma GetPut32(v: Num32, b: seq<Byte>, i: nat)
    requires i + 4 <= |b|
    requires forall j :: 0 <= j < 4 ==> Put32(v)[j] == b[i + j]
    ensures Get32(b, i) == v
  {
    Widths();
    var p := Put32(v);
    assert p[0] == b[i + 0] && p[1] == b[i + 1] && p[2] == b[i + 2] && p[3] == b[i + 3];
    Word4Bytes4(OfNat(32, v));
    ToNatOfNat(32, v);
  }

  lemma PutGet32(b: seq<Byte>, i: nat)
    requires i + 4 <= |b|
    ensures Put32(Get32(b, i)) == b[i..i + 4]
  {
    OfNatToNat(Word4(b[i], b[i + 1], b[i + 2], b[i + 3]));
    Bytes4Word4(b[i], b[i + 1], b[i + 2], b[i + 3]);
  }

  type Num16 = n: nat | n < 0x1_0000

  /** `struct.pack("<H", v)` */
  function Put16(v: nat): (b: seq<Byte>)
    ensures |b| == 2
  {
    Bytes2(OfNat(16, v))
  }

  function Get16(b: seq<Byte>, i: nat): Num16
    requires i + 2 <= |b|
  {
    Widths();
    ToNatBound(Word2(b[i], b[i + 1]), 0);
    ToNat(Word2(b[i], b[i + 1]))
  }

  lemma GetPut16(v: Num16, b: seq<Byte>, i: nat)
    requires i + 2 <= |b|
    requires Put16(v)[0] == b[i] && Put16(v)[1] == b[i + 1]
    ensures Get16(b, i) == v
  {
    Widths();
    Field2(OfNat(16, v), b[i], b[i + 1]);
    ToNatOfNat(16, v);
  }

  lemma PutGet16(b: seq<Byte>, i: nat)
    requires i + 2 <= |b|
    ensures Put16(Get16(b, i)) == b[i..i + 2]
  {
    OfNatToNat(Word2(b[i], b[i + 1]));
    Field2(Zeros(16), b[i], b[i + 1]);
  }

  // ---- the header: 16 bytes ----

  datatype Header = Header(magic: Num32, version: Num32, count: Num32, crc: Num32)

  function HeaderBytes(h: Header): (b: seq<Byte>)
    ensures |b| == 16
  {
    Put32(h.magic) + Put32(h.version) + Put32(h.count) + Put32(h.crc)
  }

  function HeaderOf(b: seq<Byte>): (h: Header)
    requires |b| >= 16
  {
    Header(Get32(b, 0), Get32(b, 4), Get32(b, 8), Get32(b, 12))
  }

  lemma HeaderDecodes(h: Header, b: seq<Byte>)
    requires |b| >= 16
    requires forall i :: 0 <= i < 16 ==> HeaderBytes(h)[i] == b[i]
    ensures HeaderOf(b) == h
  {
    var d := HeaderBytes(h);
    forall j | 0 <= j < 4 ensures Put32(h.magic)[j] == b[0 + j] && Put32(h.version)[j] == b[4 + j] {
      assert d[j] == b[j] && d[4 + j] == b[4 + j];
    }
    forall j | 0 <= j < 4 ensures Put32(h.count)[j] == b[8 + j] && Put32(h.crc)[j] == b[12 + j] {
      assert d[8 + j] == b[8 + j] && d[12 + j] == b[12 + j];
    }
    GetPut32(h.magic, b, 0);
    GetPut32(h.version, b, 4);
    GetPut32(h.count, b, 8);
    GetPut32(h.crc, b, 12);
  }

  lemma HeaderEncodes(b: seq<Byte>)
    requires |b| >= 16
    ensures HeaderBytes(HeaderOf(b)) == b[..16]
    ensures b[4..12] == Put32(HeaderOf(b).version) + Put32(HeaderOf(b).count)
  {
    PutGet32(b, 0);
    PutGet32(b, 4);
    PutGet32(b, 8);
    PutGet32(b, 12);
    assert b[..16] == b[0..4] + b[4..8] + b[8..12] + b[12..16];
    assert b[4..12] == b[4..8] + b[8..12];
  }

  lemma SameHeader(b: seq<Byte>, c: seq<Byte>)
    requires |b| >= 16 && |c| >= 16 && forall i :: 0 <= i < 16 ==> b[i] == c[i]
    ensures HeaderOf(b) == HeaderOf(c)
  {
  }

  /** What the CRC protects: version, count and records, but neither the magic nor the CRC. */
  function Payload(version: Num32, count: Num32, body: seq<Byte>): seq<Byte> {
    Put32(version) + Put32(count) + body
  }

  /** The header's CRC field is right for these records. */
  predicate CrcOk(fmt: Format, h: Header, body: seq<Byte>) {
    fmt.crc(Payload(h.version, h.count, body)) == h.crc
  }

  // ---- records: 8 bytes each ----

  predicate Encodable(r: Record) {
    r.x < 0x1_0000 && r.y < 0x1_0000 && r.n < 0x1_0000
  }

  predicate AllEncodable(rs: seq<Record>) {
    forall i :: 0 <= i < |rs| ==> Encodable(rs[i])
  }

  lemma AcceptedEncodable(rs: seq<Record>)
    requires Accepted(rs)
    ensures AllEncodable(rs)
  {
  }

  function RecordBytes(r: Record): (b: seq<Byte>)
    ensures |b| == 8
  {
    Put16(r.x) + Put16(r.y) + Put16(r.n) + Bytes2(r.mask)
  }

  /** `recs[i]`, read in place. */
  function RecordAt(b: seq<Byte>, off: nat): (r: Record)
    requires off + 8 <= |b|
    ensures Encodable(r)
  {
    Record(Get16(b, off), Get16(b, off + 2), Get16(b, off + 4), Word2(b[off + 6], b[off + 7]))
  }

  lemma RecordDecodes(r: Record, b: seq<Byte>, off: nat)
    requires Encodable(r) && off + 8 <= |b|
    requires forall i :: 0 <= i < 8 ==> RecordBytes(r)[i] == b[off + i]
    ensures RecordAt(b, off) == r
  {
    var d := RecordBytes(r);
    assert d[0] == b[off + 0] && d[1] == b[off + 1] && d[2] == b[off + 2] && d[3] == b[off + 3];
    assert d[4] == b[off + 4] && d[5] == b[off + 5] && d[6] == b[off + 6] && d[7] == b[off + 7];
    GetPut16(r.x, b, off);
    GetPut16(r.y, b, off + 2);
    GetPut16(r.n, b, off + 4);
    Field2(r.mask, b[off + 6], b[off + 7]);
  }

  lemma RecordEncodes(b: seq<Byte>, off: nat)
    requires off + 8 <= |b|
    ensures RecordBytes(RecordAt(b, off)) == b[off..off + 8]
  {
    PutGet16(b, off);
    PutGet16(b, off + 2);
    PutGet16(b, off + 4);
    Field2(Zeros(16), b[off + 6], b[off + 7]);
    assert b[off..off + 8] == b[off..off + 2] + b[off + 2..off + 4] + b[off + 4..off + 6] + [b[off + 6], b[off + 7]];
  }

  function Body(rs: seq<Record>): (b: seq<Byte>)
    ensures |b| == 8 * |rs|
  {
    if rs == [] then [] else Body(rs[..|rs| - 1]) + RecordBytes(rs[|rs| - 1])
  }

  function Records(body: seq<Byte>, n: nat): (rs: seq<Record>)
    requires 8 * n <= |body|
    ensures |rs| == n
  {
    seq(n, i requires 0 <= i < n => RecordAt(body, 8 * i))
  }

  lemma BodySnoc(rs: seq<Record>, r: Record)
    ensures Body(rs + [r]) == Body(rs) + RecordBytes(r)
  {
    assert (rs + [r])[..|rs|] == rs;
  }

  lemma SameRecord(b: seq<Byte>, c: seq<Byte>, off: nat)
    requires off + 8 <= |b| && off + 8 <= |c|
    requires forall i :: off <= i < off + 8 ==> b[i] == c[i]
    ensures RecordAt(b, off) == RecordAt(c, off)
  {
  }

  lemma {:induction false} BodyDecodes(rs: seq<Record>)
    requires AllEncodable(rs)
    ensures Records(Body(rs), |rs|) == rs
  {
    if rs != [] {
      var k := |rs| - 1;
      BodyDecodes(rs[..k]);
      RecordsSnoc(Body(rs[..k]), k, rs[k]);
    }
  }

  lemma RecordsSnoc(b: seq<Byte>, k: nat, r: Record)
    requires |b| == 8 * k && Encodable(r)
    ensures Records(b + RecordBytes(r), k + 1) == Records(b, k) + [r]
  {
    var c := b + RecordBytes(r);
    RecordDecodes(r, c, 8 * k);
    forall i | 0 <= i < k ensures RecordAt(c, 8 * i) == RecordAt(b, 8 * i) {
      SameRecord(c, b, 8 * i);
    }
  }

  lemma {:induction false} BodyEncodes(body: seq<Byte>, n: nat)
    requires 8 * n <= |body|
    ensures Body(Records(body, n)) == body[..8 * n]
  {
    if n > 0 {
      var k := 8 * (n - 1);
      BodyEncodes(body, n - 1);
      RecordEncodes(body, k);
      BodySnoc(Records(body, n - 1), RecordAt(body, k));
      assert Records(body, n) == Records(body, n - 1) + [RecordAt(body, k)];
      PrefixSnoc(body, k, k + 8);
    }
  }

  lemma PrefixSnoc(s: seq<Byte>, i: nat, j: nat)
    requires i <= j <= |s|
    ensures s[..j] == s[..i] + s[i..j]
  {
  }

  // ---- gen_edits.py ----

  datatype Packing = Packed(blob: seq<Byte>) | Refused(index: nat, why: Status)

  function HeaderFor(fmt: Format, rs: seq<Record>): Header
    requires |rs| < U32
  {
    Header(fmt.magic, fmt.version, |rs|, fmt.crc(Payload(fmt.version, |rs|, Body(rs))))
  }

  function Blob(fmt: Format, rs: seq<Record>): (b: seq<Byte>)
    requires |rs| < U32
    ensures |b| == 16 + 8 * |rs|
  {
    HeaderBytes(HeaderFor(fmt, rs)) + Body(rs)
  }

  method PackEdits(fmt: Format, records: seq<Record>) returns (r: Packing)
    requires |records| < U32 && UsesCrc32(fmt)
    ensures r.Packed? <==> Accepted(records)
    ensures r.Packed? ==> r.blob == Blob(fmt, records)
    ensures r.Refused? ==> r.index < |records| && Accepted(records[..r.index])
    ensures r.Refused? ==> !r.why.LcOk? && r.why == StatusOf(records[r.index])
  {
    var body: seq<Byte> := [];
    for i := 0 to |records|
      invariant body == Body(records[..i])
      invariant Accepted(records[..i])
    {
      var rec := records[i];
      if !ValidX(rec.x) { return Refused(i, LcErrX); }
      if !ValidY(rec.y) { return Refused(i, LcErrY); }
      if !ValidN(rec.n) { return Refused(i, LcErrN); }
      body := body + (Put16(rec.x) + Put16(rec.y) + Put16(rec.n) + Bytes2(rec.mask));
      BodySnoc(records[..i], rec);
      assert records[..i + 1] == records[..i] + [rec];
    }
    assert records[..|records|] == records;
    var header := MakeHeader(fmt, |records|, body);
    r := Packed(HeaderBytes(header) + body);
  }

  method MakeHeader(fmt: Format, count: Num32, body: seq<Byte>) returns (h: Header)
    requires UsesCrc32(fmt)
    ensures h == Header(fmt.magic, fmt.version, count, fmt.crc(Payload(fmt.version, count, body)))
  {
    var crc := Crc32OneShot(Put32(fmt.version) + Put32(count) + body);
    Widths();
    ToNatBound(crc, 0);
    h := Header(fmt.magic, fmt.version, count, ToNat(crc));
  }

  datatype Parsing = Parsed(rs: seq<Record>) | TooShort | BadMagic | BadVersion | Truncated | CrcMismatch

  function Parse(fmt: Format, blob: seq<Byte>): Parsing {
    if |blob| < 16 then TooShort
    else
      var h := HeaderOf(blob);
      if h.magic != fmt.magic then BadMagic
      else if h.version != fmt.version then BadVersion
      else if |blob| < 16 + 8 * h.count then Truncated
      else if !CrcOk(fmt, h, blob[16..16 + 8 * h.count]) then CrcMismatch
      else Parsed(Records(blob[16..16 + 8 * h.count], h.count))
  }

  method ParseEdits(fmt: Format, blob: seq<Byte>) returns (r: Parsing)
    requires UsesCrc32(fmt)
    ensures r == Parse(fmt, blob)
  {
    if |blob| < 16 { return TooShort; }
    var h := HeaderOf(blob);
    if h.magic != fmt.magic { return BadMagic; }
    if h.version != fmt.version { return BadVersion; }
    var bodyLen := h.count * 8;
    if |blob| < 16 + bodyLen { return Truncated; }
    var body := blob[16..16 + bodyLen];
    HeaderEncodes(blob);
    var computed := Crc32OneShot(blob[4..16 - 4] + body);
    if ToNat(computed) != h.crc { return CrcMismatch; }
    var out := UnpackRecords(body, h.count);
    r := Parsed(out);
  }

  method UnpackRecords(body: seq<Byte>, n: nat) returns (out: seq<Record>)
    requires |body| == 8 * n
    ensures out == Records(body, n)
  {
    out := [];
    for i := 0 to n
      invariant out == Records(body, i)
    {
      out := out + [RecordAt(body, i * 8)];
    }
  }

  lemma PrefixAndRest(h: Header, body: seq<Byte>, blob: seq<Byte>)
    requires blob == HeaderBytes(h) + body
    ensures HeaderOf(blob) == h && blob[16..16 + |body|] == body
  {
    HeaderDecodes(h, blob);
  }

  lemma BlobIs(fmt: Format, rs: seq<Record>, h: Header, body: seq<Byte>)
    requires |rs| < U32 && h == HeaderFor(fmt, rs) && body == Body(rs)
    ensures Blob(fmt, rs) == HeaderBytes(h) + body
  {
  }

  lemma BlobSplits(fmt: Format, rs: seq<Record>)
    requires |rs| < U32
    ensures HeaderOf(Blob(fmt, rs)) == HeaderFor(fmt, rs)
    ensures Blob(fmt, rs)[16..16 + 8 * |rs|] == Body(rs)
  {
    BlobIs(fmt, rs, HeaderFor(fmt, rs), Body(rs));
    PrefixAndRest(HeaderFor(fmt, rs), Body(rs), Blob(fmt, rs));
  }

  /** Whatever is packed parses back to the same records. */
  lemma ParsePack(fmt: Format, rs: seq<Record>)
    requires Accepted(rs) && |rs| < U32
    ensures Parse(fmt, Blob(fmt, rs)) == Parsed(rs)
  {
    BlobSplits(fmt, rs);
    AcceptedEncodable(rs);
    BodyDecodes(rs);
  }

  lemma SameHeaderFor(fmt: Format, h: Header, rs: seq<Record>, body: seq<Byte>)
    requires h.magic == fmt.magic && h.version == fmt.version && |rs| == h.count
    requires Body(rs) == body && CrcOk(fmt, h, body)
    ensures HeaderFor(fmt, rs) == h
  {
  }

  lemma HeaderAndBody(blob: seq<Byte>, n: nat)
    requires 16 + 8 * n <= |blob|
    ensures HeaderBytes(HeaderOf(blob)) + blob[16..16 + 8 * n] == blob[..16 + 8 * n]
  {
    HeaderEncodes(blob);
    assert blob[..16 + 8 * n] == blob[..16] + blob[16..16 + 8 * n];
  }

  /** Re-packing a parsed file gives back its bytes up to the last record. */
  lemma PackParse(fmt: Format, blob: seq<Byte>)
    requires Parse(fmt, blob).Parsed?
    ensures |Parse(fmt, blob).rs| < U32 && 16 + 8 * |Parse(fmt, blob).rs| <= |blob|
    ensures Blob(fmt, Parse(fmt, blob).rs) == blob[..16 + 8 * |Parse(fmt, blob).rs|]
  {
    var h, rs := HeaderOf(blob), Parse(fmt, blob).rs;
    var body := blob[16..16 + 8 * h.count];
    BodyEncodes(body, h.count);
    assert body[..8 * h.count] == body;
    SameHeaderFor(fmt, h, rs, body);
    HeaderAndBody(blob, h.count);
  }

  // ---- the on-chip gate ----

  datatype Gate = Open(n: nat) | NoEdits | HeaderShort | GateMagic | GateVersion | GateTruncated | GateCrc

  /** Bytes of the 32-bit address space from an address on; addresses wrap. */
  function Load(mem: seq<Byte>, addr: nat, len: nat): (b: seq<Byte>)
    requires |mem| == U32
    ensures |b| == len
    ensures forall i :: 0 <= i < len ==> b[i] == mem[(addr + i) % U32]
  {
    seq(len, i requires 0 <= i < len => mem[(addr + i) % U32])
  }

  /** `mode_generate`, step 2a, once the header is loaded; `records` is what the CRC loop reads. */
  function GateBody(fmt: Format, h: Header, editsSz: nat, records: seq<Byte>): Gate {
    if h.magic != fmt.magic then GateMagic
    else if h.version != fmt.version then GateVersion
    else if (16 + h.count * 8) % U32 > editsSz then GateTruncated
    else if !CrcOk(fmt, h, records) then GateCrc
    else Open(h.count)
  }

  /** The gate on the file staged at address e, in 32-bit arithmetic. */
  function ChipGate(fmt: Format, mem: seq<Byte>, e: nat, editsSz: nat): Gate
    requires |mem| == U32 && editsSz < U32
  {
    if editsSz == 0 then NoEdits
    else if editsSz < 16 then HeaderShort
    else
      var h := HeaderOf(Load(mem, e, 16));
      GateBody(fmt, h, editsSz, Load(mem, e + 16, (h.count * 8) % U32))
  }

  /** The file lies in memory at address e. */
  predicate Staged(mem: seq<Byte>, e: nat, blob: seq<Byte>) {
    |mem| == U32 && e + |blob| <= U32 && forall i :: 0 <= i < |blob| ==> mem[e + i] == blob[i]
  }

  lemma LoadStaged(mem: seq<Byte>, e: nat, blob: seq<Byte>, i: nat, len: nat)
    requires Staged(mem, e, blob) && i + len <= |blob|
    ensures Load(mem, e + i, len) == blob[i..i + len]
  {
    var b, c := Load(mem, e + i, len), blob[i..i + len];
    forall j | 0 <= j < len ensures b[j] == c[j] {
      assert blob[i + j] == mem[e + (i + j)];
    }
  }

  predicate CountFits(n: nat) {
    16 + n * 8 < U32
  }

  lemma GateCore(fmt: Format, h: Header, size: nat, records: seq<Byte>, body: seq<Byte>)
    requires size < U32
    requires CountFits(h.count) && 16 + 8 * h.count <= size ==> records == body
    ensures (h.magic == fmt.magic && h.version == fmt.version && 16 + 8 * h.count <= size && CrcOk(fmt, h, body))
      <==> GateBody(fmt, h, size, records).Open? && CountFits(h.count)
  {
  }

  lemma ChipHeader(mem: seq<Byte>, e: nat, blob: seq<Byte>)
    requires Staged(mem, e, blob) && 16 <= |blob| < U32
    ensures HeaderOf(Load(mem, e, 16)) == HeaderOf(blob)
  {
    LoadStaged(mem, e, blob, 0, 16);
    var head := Load(mem, e, 16);
    assert forall i :: 0 <= i < 16 ==> head[i] == blob[0..16][i] == blob[i];
    SameHeader(head, blob);
  }

  /** What the chip loads as records is what the host slices. */
  lemma ChipRecords(mem: seq<Byte>, e: nat, blob: seq<Byte>, n: nat)
    requires Staged(mem, e, blob) && 16 + 8 * n <= |blob| < U32
    ensures Load(mem, e + 16, n * 8 % U32) == blob[16..16 + 8 * n]
  {
    LoadStaged(mem, e, blob, 16, 8 * n);
  }

  /** The records an apply loop reads from memory. */
  function Staging(mem: seq<Byte>, e: nat, n: nat): (rs: seq<Record>)
    requires |mem| == U32
    ensures |rs| == n
  {
    Records(Load(mem, e + 16, 8 * n), n)
  }

  /** Chip and host accept the same files with the same records, as long as the size the chip
      computes for the records fits 32 bits; the host accepts no other file. */
  lemma GateAgreesWithHost(fmt: Format, mem: seq<Byte>, e: nat, blob: seq<Byte>)
    requires Staged(mem, e, blob) && |blob| < U32
    ensures Parse(fmt, blob).Parsed?
      <==> ChipGate(fmt, mem, e, |blob|).Open? && CountFits(ChipGate(fmt, mem, e, |blob|).n)
    ensures Parse(fmt, blob).Parsed? ==> ChipGate(fmt, mem, e, |blob|) == Open(|Parse(fmt, blob).rs|)
    ensures Parse(fmt, blob).Parsed? ==> Staging(mem, e, |Parse(fmt, blob).rs|) == Parse(fmt, blob).rs
  {
    if |blob| >= 16 {
      ChipHeader(mem, e, blob);
      var h := HeaderOf(blob);
      var records := Load(mem, e + 16, h.count * 8 % U32);
      if 16 + 8 * h.count <= |blob| {
        ChipRecords(mem, e, blob, h.count);
      }
      GateCore(fmt, h, |blob|, records, if 16 + 8 * h.count <= |blob| then blob[16..16 + 8 * h.count] else []);
    }
  }

  /** A file that is only a header: it declares 2^29 records and has the CRC of none. */
  function WrappingFile(fmt: Format): (b: seq<Byte>)
    ensures |b| == 16
  {
    HeaderBytes(Header(fmt.magic, fmt.version, 0x2000_0000, fmt.crc(Payload(fmt.version, 0x2000_0000, []))))
  }

  /** On it the chip computes a record size of 0 and opens; the host reports a truncated file. */
  lemma GateWrapsAt29Bits(fmt: Format, mem: seq<Byte>, e: nat)
    requires Staged(mem, e, WrappingFile(fmt))
    ensures ChipGate(fmt, mem, e, 16) == Open(0x2000_0000) && Parse(fmt, WrappingFile(fmt)) == Truncated
  {
    var blob := WrappingFile(fmt);
    HeaderDecodes(Header(fmt.magic, fmt.version, 0x2000_0000, fmt.crc(Payload(fmt.version, 0x2000_0000, []))), blob);
    ChipHeader(mem, e, blob);
    assert Load(mem, e + 16, 0) == [];
  }

  /** Chip and host both refuse records whose checksum is not the header's. */
  lemma WrongCrcRejected(fmt: Format, mem: seq<Byte>, e: nat, blob: seq<Byte>)
    requires Staged(mem, e, blob) && 16 <= |blob| == 16 + 8 * HeaderOf(blob).count < U32
    requires HeaderOf(blob).magic == fmt.magic && HeaderOf(blob).version == fmt.version
    requires !CrcOk(fmt, HeaderOf(blob), blob[16..])
    ensures ChipGate(fmt, mem, e, |blob|) == GateCrc && Parse(fmt, blob) == CrcMismatch
  {
    ChipHeader(mem, e, blob);
    ChipRecords(mem, e, blob, HeaderOf(blob).count);
    assert blob[16..16 + 8 * HeaderOf(blob).count] == blob[16..];
  }

  /** Two bit strings that differ, if at all, within 32 consecutive bits. */
  predicate WithinBurst(a: seq<Byte>, b: seq<Byte>, k: nat)
    requires |a| == |b|
  {
    forall i :: 0 <= i < 8 * |a| && !(k <= i < k + 32) ==> Crc.Flat(a)[i] == Crc.Flat(b)[i]
  }

  /** Corruption of the records confined to 32 consecutive bits never gets past the gate,
      however many records there are. */
  lemma RecordBurstRejected(fmt: Format, rs: seq<Record>, blob: seq<Byte>, k: nat, mem: seq<Byte>, e: nat)
    requires UsesCrc32(fmt) && CountFits(|rs|)
    requires |blob| == 16 + 8 * |rs| && blob[..16] == Blob(fmt, rs)[..16]
    requires blob[16..] != Body(rs) && WithinBurst(blob[16..], Body(rs), k)
    requires Staged(mem, e, blob)
    ensures ChipGate(fmt, mem, e, |blob|) == GateCrc && Parse(fmt, blob) == CrcMismatch
  {
    var h := HeaderFor(fmt, rs);
    HeaderKept(h, Body(rs), blob);
    BurstBreaksCrc(fmt, rs, blob[16..], k);
    WrongCrcRejected(fmt, mem, e, blob);
  }

  lemma HeaderKept(h: Header, body: seq<Byte>, blob: seq<Byte>)
    requires |blob| >= 16 && blob[..16] == (HeaderBytes(h) + body)[..16]
    ensures HeaderOf(blob) == h
  {
    var whole := HeaderBytes(h) + body;
    forall i | 0 <= i < 16 ensures HeaderBytes(h)[i] == blob[i] {
      assert blob[i] == blob[..16][i] == whole[..16][i] == whole[i];
    }
    HeaderDecodes(h, blob);
  }

  lemma BurstBreaksCrc(fmt: Format, rs: seq<Record>, body: seq<Byte>, k: nat)
    requires UsesCrc32(fmt) && |rs| < U32
    requires |body| == |Body(rs)| && body != Body(rs) && WithinBurst(body, Body(rs), k)
    ensures !CrcOk(fmt, HeaderFor(fmt, rs), body)
  {
    var head := Put32(fmt.version) + Put32(|rs|);
    BurstChangesCrc(head, body, Body(rs), k);
    if Crc32Nat(head + body) == Crc32Nat(head + Body(rs)) {
      ToNatInjective(Crc32(head + body), Crc32(head + Body(rs)));
    }
  }

  lemma BurstChangesCrc(head: seq<Byte>, a: seq<Byte>, b: seq<Byte>, k: nat)
    requires |a| == |b| && a != b && WithinBurst(a, b, k)
    ensures Crc32(head + a) != Crc32(head + b)
  {
    var c := Crc.Run(POLY, ONES, head);
    Crc.RunConcat(POLY, ONES, head, a);
    Crc.RunConcat(POLY, ONES, head, b);
    Crc32Constants();
    Crc.BurstDetected(POLY, c, a, b, k);
    NotInjective(Crc.Run(POLY, c, a), Crc.Run(POLY, c, b));
  }

  lemma NotInjective(a: Word, b: Word)
    requires |a| == |b|
    ensures Not(a) == Not(b) <==> a == b
  {
    assert Not(Not(a)) == a && Not(Not(b)) == b;
  }

  /** The same for the files the tools write: 'EDIT', version 1, IEEE CRC-32. */
  lemma EditsBurstRejected(rs: seq<Record>, blob: seq<Byte>, k: nat, mem: seq<Byte>, e: nat)
    requires CountFits(|rs|) && |blob| == 16 + 8 * |rs| && blob[..16] == Blob(EDITS, rs)[..16]
    requires blob[16..] != Body(rs) && WithinBurst(blob[16..], Body(rs), k) && Staged(mem, e, blob)
    ensures ChipGate(EDITS, mem, e, |blob|) == GateCrc && Parse(EDITS, blob) == CrcMismatch
  {
    EditsUsesCrc32();
    RecordBurstRejected(EDITS, rs, blob, k, mem, e);
  }
}
