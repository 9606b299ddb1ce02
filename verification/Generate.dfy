/**
 Mode 'g' of the second-stage loader: gate the edit list, compare the base image with its
 baked-in hash, apply the records in place, repair the dirty frames.
 */
module Generate {
  import opened Words
  import opened Frames
  import opened Cells
  import opened LutCodec
  import opened LutCells
  import opened Geometry
  import opened Editor
  import opened EditsBin

  /** The SD header fields the mode reads. `accepts` is the comparison of the image's SHA-256
      with the baked-in hash. */
  datatype Job = Job(layoutVersion: nat, tpuSz: nat, editsSz: Num32, accepts: Image -> bool)

  /** The memory: the image buffer lies at `imageAt`, everything else is in `rest`. */
  datatype Sdram = Sdram(rest: seq<Byte>, imageAt: nat) {
    predicate Fits(size: nat) {
      |rest| == U32 && imageAt + size <= U32
    }

    function View(image: Image): (mem: seq<Byte>)
      requires Fits(|image|)
      ensures |mem| == U32
    {
      seq(|rest|, a requires 0 <= a < |rest| =>
        if imageAt <= a < imageAt + |image| then image[a - imageAt] else rest[a])
    }
  }

  /** Every outcome but the last halts the loader. */
  datatype Outcome =
    | OldLayout
    | NoBase
    | Closed(gate: Gate)
    | BaseMismatch
    | RecordRejected(index: nat, why: Status)
    | Generated(applied: nat)

  datatype Final = Final(outcome: Outcome, image: Image)

  /** Position of the first record `lc_init` rejects, or the length of the list. */
  function FirstRejected(rs: seq<Record>, from: nat): (k: nat)
    requires from <= |rs|
    ensures from <= k <= |rs|
    ensures k < |rs| ==> !Valid(rs[k].Element())
    ensures forall i :: from <= i < k ==> Valid(rs[i].Element())
    decreases |rs| - from
  {
    if from == |rs| || !Valid(rs[from].Element()) then from else FirstRejected(rs, from + 1)
  }

  /** The reference: apply the records before the first rejected one, and repair what they
      touched unless there is one. */
  function ApplyAll(t: Tables, base: Image, rs: seq<Record>): Final
    requires TablesOk(t) && Covers(base)
  {
    var k := FirstRejected(rs, 0);
    if k < |rs| then Final(RecordRejected(k, StatusOf(rs[k])), XorCells(base, Net(t, rs[..k])))
    else Final(Generated(|rs|), RepairSome(XorCells(base, Net(t, rs)), TouchedFrames(t, rs)))
  }

  /** Record `i` where the loop reads it, in 32-bit addresses. */
  function RecordIn(mem: seq<Byte>, e: nat, i: nat): Record
    requires |mem| == U32
  {
    RecordAt(Load(mem, e + 16 + 8 * i, 8), 0)
  }

  /** What a loop over `n` records can end with. */
  predicate LoopOutcome(o: Outcome, n: nat) {
    match o
    case RecordRejected(k, _) => k < n
    case Generated(applied) => applied == n
    case _ => false
  }

  /** The loop from record `i` on. Records are read from the memory that is being edited. */
  function Live(t: Tables, m: Sdram, e: nat, n: nat, i: nat, image: Image, marked: set<nat>): (final: Final)
    requires TablesOk(t) && Covers(image) && m.Fits(|image|) && i <= n
    ensures LoopOutcome(final.outcome, n)
    decreases n - i
  {
    if i == n then Final(Generated(n), RepairSome(image, marked))
    else
      var r := RecordIn(m.View(image), e, i);
      if !Valid(r.Element()) then Final(RecordRejected(i, StatusOf(r)), image)
      else Live(t, m, e, n, i + 1, XorCells(image, RecordCells(t, r)), marked + FramesOf(RecordCells(t, r)))
  }

  /** What mode 'g' leaves in the image buffer, for every header, memory and base image. */
  function Run(t: Tables, fmt: Format, job: Job, m: Sdram, e: nat, base: Image): Final
    requires TablesOk(t) && Covers(base) && m.Fits(|base|)
  {
    if job.layoutVersion < 4 then Final(OldLayout, base)
    else if job.tpuSz == 0 then Final(NoBase, base)
    else
      var gate := ChipGate(fmt, m.View(base), e, job.editsSz);
      if !gate.Open? then Final(Closed(gate), base)
      else if !job.accepts(base) then Final(BaseMismatch, base)
      else Live(t, m, e, gate.n, 0, base, {})
  }

  /** Which outcome comes when; nothing is written before the last test. */
  lemma OutcomeWhen(t: Tables, fmt: Format, job: Job, m: Sdram, e: nat, base: Image)
    requires TablesOk(t) && Covers(base) && m.Fits(|base|)
    ensures var final, gate := Run(t, fmt, job, m, e, base), ChipGate(fmt, m.View(base), e, job.editsSz);
      match final.outcome
      case OldLayout => job.layoutVersion < 4 && final.image == base
      case NoBase => job.layoutVersion >= 4 && job.tpuSz == 0 && final.image == base
      case Closed(g) => job.layoutVersion >= 4 && job.tpuSz > 0 && g == gate && !gate.Open? && final.image == base
      case BaseMismatch =>
        job.layoutVersion >= 4 && job.tpuSz > 0 && gate.Open? && !job.accepts(base) && final.image == base
      case RecordRejected(i, _) =>
        job.layoutVersion >= 4 && job.tpuSz > 0 && gate.Open? && job.accepts(base) && i < gate.n
      case Generated(applied) =>
        job.layoutVersion >= 4 && job.tpuSz > 0 && gate.Open? && job.accepts(base) && applied == gate.n
  {
    var gate := ChipGate(fmt, m.View(base), e, job.editsSz);
    if gate.Open? {
      assert LoopOutcome(Live(t, m, e, gate.n, 0, base, {}).outcome, gate.n);
    }
  }

  // ---- the loops ----

  lemma TouchedSnoc(t: Tables, rs: seq<Record>, i: nat)
    requires TablesOk(t) && i < |rs|
    ensures Net(t, rs[..i + 1]) == SymDiff(Net(t, rs[..i]), RecordCells(t, rs[i]))
    ensures TouchedFrames(t, rs[..i + 1]) == TouchedFrames(t, rs[..i]) + FramesOf(RecordCells(t, rs[i]))
  {
    assert rs[..i + 1] == rs[..i] + [rs[i]];
    FoldSnoc(Flips(t), rs[..i], rs[i]);
    FoldFramesSnoc(Flips(t), rs[..i], rs[i]);
  }

  /** `lut_apply_with_canon`: on the covered columns the canon layer is taken to be empty. */
  method LutApplyWithCanon(rbf: array<Byte>, t: Tables, r: Record, dirty: array<Byte>) returns (st: Status)
    requires GeometryOk(t) && CRAM_END <= rbf.Length <= U32
    requires dirty.Length == BITMAP_BYTES && dirty != rbf
    modifies rbf, dirty
    ensures st == StatusOf(r)
    ensures rbf[..] == if st == LcOk then XorCells(old(rbf[..]), RecordCells(t, r)) else old(rbf[..])
    ensures DirtyFrames(dirty[..]) == DirtyFrames(old(dirty[..])) + FramesOf(RecordCells(t, r))
  {
    var stack := new nat[4];
    var lc;
    st, lc := LcInit(t, r.x, r.y, r.n, stack[..]);
    if st != LcOk { return; }
    WindowFits(t, r.Element());
    LutApplyMask(rbf, lc, r.mask, dirty);
  }

  method ClearBitmap(dirty: array<Byte>)
    requires dirty.Length == BITMAP_BYTES
    modifies dirty
    ensures DirtyFrames(dirty[..]) == {}
  {
    for b := 0 to BITMAP_BYTES
      invariant forall c :: 0 <= c < b ==> dirty[c] == Zeros(8)
    {
      dirty[b] := Zeros(8);
    }
    assert forall f: nat :: CramFrame(f) ==> !Marked(dirty[..], f);
  }

  method PeekByte(m: Sdram, rbf: array<Byte>, a: nat) returns (b: Byte)
    requires m.Fits(rbf.Length) && a < U32
    ensures b == m.View(rbf[..])[a]
  {
    b := if m.imageAt <= a < m.imageAt + rbf.Length then rbf[a - m.imageAt] else m.rest[a];
  }

  method LoadBytes(m: Sdram, rbf: array<Byte>, addr: nat, len: nat) returns (bytes: seq<Byte>)
    requires m.Fits(rbf.Length)
    ensures bytes == Load(m.View(rbf[..]), addr, len)
  {
    bytes := [];
    for k := 0 to len
      invariant bytes == Load(m.View(rbf[..]), addr, k)
    {
      var b := PeekByte(m, rbf, (addr + k) % U32);
      bytes := bytes + [b];
    }
  }

  /** `recs[i]`, byte by byte from the memory as it is now. */
  method ReadRecord(m: Sdram, rbf: array<Byte>, e: nat, i: nat) returns (r: Record)
    requires m.Fits(rbf.Length)
    ensures r == RecordIn(m.View(rbf[..]), e, i)
  {
    var bytes := LoadBytes(m, rbf, e + 16 + 8 * i, 8);
    r := RecordAt(bytes, 0);
  }

  /** One turn of step 5. */
  method ApplyRecord(rbf: array<Byte>, t: Tables, m: Sdram, e: nat, i: nat, dirty: array<Byte>)
    returns (st: Status, ghost r: Record)
    requires GeometryOk(t) && CRAM_END <= rbf.Length && m.Fits(rbf.Length)
    requires dirty.Length == BITMAP_BYTES && dirty != rbf
    modifies rbf, dirty
    ensures r == RecordIn(m.View(old(rbf[..])), e, i) && st == StatusOf(r)
    ensures rbf[..] == if st == LcOk then XorCells(old(rbf[..]), RecordCells(t, r)) else old(rbf[..])
    ensures DirtyFrames(dirty[..]) == DirtyFrames(old(dirty[..])) + FramesOf(RecordCells(t, r))
  {
    var rec := ReadRecord(m, rbf, e, i);
    r := rec;
    st := LutApplyWithCanon(rbf, t, rec, dirty);
  }

  /** Step 5. */
  method ApplyRecords(rbf: array<Byte>, t: Tables, m: Sdram, e: nat, n: nat, dirty: array<Byte>)
    returns (applied: nat, st: Status)
    requires GeometryOk(t) && CRAM_END <= rbf.Length && m.Fits(rbf.Length)
    requires dirty.Length == BITMAP_BYTES && dirty != rbf && DirtyFrames(dirty[..]) == {}
    modifies rbf, dirty
    ensures applied <= n && (st.LcOk? <==> applied == n)
    ensures Live(t, m, e, n, 0, old(rbf[..]), {})
      == if applied == n then Final(Generated(n), RepairSome(rbf[..], DirtyFrames(dirty[..])))
        else Final(RecordRejected(applied, st), rbf[..])
  {
    ghost var whole := Live(t, m, e, n, 0, rbf[..], {});
    applied, st := 0, LcOk;
    while applied < n
      invariant applied <= n && st == LcOk
      invariant Live(t, m, e, n, applied, rbf[..], DirtyFrames(dirty[..])) == whole
    {
      ghost var r;
      st, r := ApplyRecord(rbf, t, m, e, applied, dirty);
      if st != LcOk { return; }
      applied := applied + 1;
    }
  }

  /** Steps 5 and 6. */
  method ApplyAndRepair(rbf: array<Byte>, t: Tables, m: Sdram, e: nat, n: nat, dirty: array<Byte>)
    returns (out: Outcome)
    requires GeometryOk(t) && CRAM_END <= rbf.Length && m.Fits(rbf.Length)
    requires dirty.Length == BITMAP_BYTES && dirty != rbf
    modifies rbf, dirty
    ensures Final(out, rbf[..]) == Live(t, m, e, n, 0, old(rbf[..]), {})
  {
    ClearBitmap(dirty);
    var applied, st := ApplyRecords(rbf, t, m, e, n, dirty);
    if st != LcOk { return RecordRejected(applied, st); }
    LcPatchRbfCrcFrames(rbf, dirty);
    out := Generated(applied);
  }

  /** The mode after `sd_init`, for every header and every contents of the memory. */
  method ModeGenerate(t: Tables, fmt: Format, job: Job, m: Sdram, e: nat, rbf: array<Byte>, dirty: array<Byte>)
    returns (out: Outcome)
    requires GeometryOk(t) && UsesCrc32(fmt) && CRAM_END <= rbf.Length && m.Fits(rbf.Length)
    requires dirty.Length == BITMAP_BYTES && dirty != rbf
    modifies rbf, dirty
    ensures Final(out, rbf[..]) == Run(t, fmt, job, m, e, old(rbf[..]))
  {
    if job.layoutVersion < 4 { return OldLayout; }
    if job.tpuSz == 0 { return NoBase; }
    var gate := EditsGate(fmt, m.View(rbf[..]), e, job.editsSz);
    if !gate.Open? { return Closed(gate); }
    if !job.accepts(rbf[..]) { return BaseMismatch; }
    out := ApplyAndRepair(rbf, t, m, e, gate.n, dirty);
  }

  /** Step 2a. */
  method EditsGate(fmt: Format, mem: seq<Byte>, e: nat, editsSz: Num32) returns (g: Gate)
    requires UsesCrc32(fmt) && |mem| == U32
    ensures g == ChipGate(fmt, mem, e, editsSz)
  {
    if editsSz == 0 { return NoEdits; }
    if editsSz < 16 { return HeaderShort; }
    var head := Load(mem, e, 16);
    var h := HeaderOf(head);
    HeaderEncodes(head);
    g := GateOnHeader(fmt, h, head[4..12], editsSz, Load(mem, e + 16, (h.count * 8) % U32));
  }

  method GateOnHeader(fmt: Format, h: Header, versionAndCount: seq<Byte>, editsSz: Num32, records: seq<Byte>)
    returns (g: Gate)
    requires UsesCrc32(fmt)
    requires versionAndCount == Put32(h.version) + Put32(h.count)
    ensures g == GateBody(fmt, h, editsSz, records)
  {
    if h.magic != fmt.magic { return GateMagic; }
    if h.version != fmt.version { return GateVersion; }
    var need := (16 + h.count * 8) % U32;
    if need > editsSz { return GateTruncated; }
    var gotCrc := Crc32Two(versionAndCount, records);
    if ToNat(gotCrc) != h.crc { return GateCrc; }
    g := Open(h.count);
  }

  // ---- the edit list in memory ----

  /** The edit list and the image do not overlap. */
  predicate Separate(m: Sdram, size: nat, e: nat, blob: seq<Byte>) {
    e + |blob| <= m.imageAt || m.imageAt + size <= e
  }

  lemma ViewOutside(m: Sdram, a: Image, b: Image, i: nat)
    requires m.Fits(|a|) && |a| == |b| && i < U32 && !(m.imageAt <= i < m.imageAt + |a|)
    ensures m.View(a)[i] == m.View(b)[i]
  {
  }

  /** Editing the image leaves the edit list where it is. */
  lemma StagedStays(m: Sdram, a: Image, b: Image, e: nat, blob: seq<Byte>)
    requires m.Fits(|a|) && |a| == |b| && Separate(m, |a|, e, blob) && Staged(m.View(a), e, blob)
    ensures Staged(m.View(b), e, blob)
  {
    forall i | 0 <= i < |blob| ensures m.View(b)[e + i] == blob[i] {
      ViewOutside(m, a, b, e + i);
    }
  }

  lemma StagingAt(mem: seq<Byte>, e: nat, n: nat, i: nat)
    requires |mem| == U32 && i < n
    ensures Staging(mem, e, n)[i] == RecordIn(mem, e, i)
  {
    var all, one := Load(mem, e + 16, 8 * n), Load(mem, e + 16 + 8 * i, 8);
    forall k | 0 <= k < 8 ensures all[8 * i + k] == one[k] {
    }
    SameRecordAt(all, 8 * i, one);
  }

  lemma SameRecordAt(b: seq<Byte>, off: nat, c: seq<Byte>)
    requires off + 8 <= |b| && |c| == 8 && forall k :: 0 <= k < 8 ==> b[off + k] == c[k]
    ensures RecordAt(b, off) == RecordAt(c, 0)
  {
    assert b[off + 0] == c[0] && b[off + 1] == c[1] && b[off + 2] == c[2] && b[off + 3] == c[3];
    assert b[off + 4] == c[4] && b[off + 5] == c[5] && b[off + 6] == c[6] && b[off + 7] == c[7];
  }

  /** The loop reads the records `rs`, whatever the image of this size has become. */
  ghost predicate Reads(m: Sdram, size: nat, e: nat, rs: seq<Record>)
    requires m.Fits(size)
  {
    forall image: Image, i {:trigger RecordIn(m.View(image), e, i)} ::
      |image| == size && 0 <= i < |rs| ==> RecordIn(m.View(image), e, i) == rs[i]
  }

  /** Whatever file the host parses, packed or not, the chip opens and reads the same records. */
  lemma ParsedReachesLoop(fmt: Format, m: Sdram, e: nat, base: Image, blob: seq<Byte>)
    requires m.Fits(|base|) && Staged(m.View(base), e, blob) && |blob| < U32 && Separate(m, |base|, e, blob)
    requires Parse(fmt, blob).Parsed?
    ensures ChipGate(fmt, m.View(base), e, |blob|) == Open(|Parse(fmt, blob).rs|)
    ensures Reads(m, |base|, e, Parse(fmt, blob).rs)
  {
    var rs := Parse(fmt, blob).rs;
    GateAgreesWithHost(fmt, m.View(base), e, blob);
    forall image: Image, i {:trigger RecordIn(m.View(image), e, i)} | |image| == |base| && 0 <= i < |rs|
      ensures RecordIn(m.View(image), e, i) == rs[i]
    {
      StagedStays(m, base, image, e, blob);
      GateAgreesWithHost(fmt, m.View(image), e, blob);
      StagingAt(m.View(image), e, |rs|, i);
    }
  }

  /** Then the live loop is the reference on those records. */
  lemma {:induction false} LiveIsApplyAll(t: Tables, m: Sdram, e: nat, i: nat, base: Image, rs: seq<Record>)
    requires TablesOk(t) && Covers(base) && m.Fits(|base|) && Reads(m, |base|, e, rs)
    requires i <= |rs| && FirstRejected(rs, 0) == FirstRejected(rs, i)
    ensures Live(t, m, e, |rs|, i, XorCells(base, Net(t, rs[..i])), TouchedFrames(t, rs[..i])) == ApplyAll(t, base, rs)
    decreases |rs| - i
  {
    var image := XorCells(base, Net(t, rs[..i]));
    if i == |rs| {
      assert rs[..i] == rs;
    } else {
      assert RecordIn(m.View(image), e, i) == rs[i];
      if Valid(rs[i].Element()) {
        TouchedSnoc(t, rs, i);
        XorTwice(base, Net(t, rs[..i]), RecordCells(t, rs[i]));
        LiveIsApplyAll(t, m, e, i + 1, base, rs);
      }
    }
  }

  lemma AppliesReference(t: Tables, base: Image, rs: seq<Record>)
    requires GeometryOk(t) && Covers(base) && Consistent(base) && Accepted(rs)
    ensures ApplyAll(t, base, rs) == Final(Generated(|rs|), Edited(t, base, rs))
  {
    assert FirstRejected(rs, 0) == |rs|;
    FastRefinesSlowAfter(base, Flips(t), rs);
  }

  // ---- end to end ----

  /** The setting: a base image, and beside it a file that parses to the records `rs`. */
  ghost predicate Ready(t: Tables, fmt: Format, job: Job, m: Sdram, e: nat, base: Image, blob: seq<Byte>,
                        rs: seq<Record>) {
    && GeometryOk(t) && Covers(base)
    && m.Fits(|base|) && Staged(m.View(base), e, blob) && Separate(m, |base|, e, blob)
    && |blob| < U32 && Parse(fmt, blob) == Parsed(rs)
    && job.layoutVersion >= 4 && job.tpuSz > 0 && job.editsSz == |blob|
  }

  /** A base with another hash is left alone; otherwise the parsed records are applied. */
  lemma ParsedRun(t: Tables, fmt: Format, job: Job, m: Sdram, e: nat, base: Image, blob: seq<Byte>, rs: seq<Record>)
    requires Ready(t, fmt, job, m, e, base, blob, rs)
    ensures Run(t, fmt, job, m, e, base)
      == if job.accepts(base) then ApplyAll(t, base, rs) else Final(BaseMismatch, base)
  {
    ParsedReachesLoop(fmt, m, e, base, blob);
    XorNone(base);
    assert rs[..0] == [];
    LiveIsApplyAll(t, m, e, 0, base, rs);
  }

  /** On a consistent base and accepted records mode 'g' computes the reference edit, although it
      repairs only the frames it marked. */
  lemma GeneratesReference(
    t: Tables, fmt: Format, job: Job, m: Sdram, e: nat, base: Image, blob: seq<Byte>, rs: seq<Record>)
    requires Ready(t, fmt, job, m, e, base, blob, rs) && Consistent(base) && Accepted(rs)
    ensures Run(t, fmt, job, m, e, base)
      == if job.accepts(base) then Final(Generated(|rs|), Edited(t, base, rs)) else Final(BaseMismatch, base)
  {
    ParsedRun(t, fmt, job, m, e, base, blob, rs);
    AppliesReference(t, base, rs);
  }

  /** The image a run leaves, and what another run would do to it. */
  ghost predicate Delivered(t: Tables, base: Image, rs: seq<Record>, image: Image)
    requires GeometryOk(t) && Covers(base) && Accepted(rs)
  {
    && |image| == |base| && Consistent(image)
    && (forall l: Le :: Valid(l) ==> ReadMask(image, At(t, l)) == Xor(ReadMask(base, At(t, l)), NetMask(rs, l)))
    && OtherBitsAs(t, rs, base, image)
    && ApplyAll(t, image, rs) == Final(Generated(|rs|), base)
  }

  /** Data bits of unedited elements, and of no element, are as in the base. */
  ghost predicate OtherBitsAs(t: Tables, rs: seq<Record>, base: Image, image: Image)
    requires TablesOk(t) && Accepted(rs) && |image| == |base|
  {
    forall a, p | 0 <= a < |base| && 0 <= p < 8 && !IsCrcByte(a) && Unedited(t, rs, Cell(a, p)) ::
      image[a][p] == base[a][p]
  }

  lemma EditedDelivers(t: Tables, base: Image, rs: seq<Record>)
    requires GeometryOk(t) && Covers(base) && Consistent(base) && Accepted(rs)
    ensures Delivered(t, base, rs, Edited(t, base, rs))
  {
    var image := Edited(t, base, rs);
    RepairConsistent(XorCells(base, Net(t, rs)));
    forall l: Le | Valid(l)
      ensures ReadMask(image, At(t, l)) == Xor(ReadMask(base, At(t, l)), NetMask(rs, l))
    {
      ReadEdited(t, base, rs, l);
    }
    forall a, p | 0 <= a < |base| && 0 <= p < 8 && !IsCrcByte(a) && Unedited(t, rs, Cell(a, p))
      ensures image[a][p] == base[a][p]
    {
      OtherBitsKept(t, base, rs, a, p);
    }
    AppliesReference(t, image, rs);
    EditTwiceRestores(t, base, rs);
  }

  /** End to end: all frame CRCs are right, every element reads back as its old mask XOR the
      masks aimed at it, every other data bit is untouched, and applying the list again would
      restore the base. A second run gets that far only if the hash accepts the edited image too. */
  lemma EndToEnd(
    t: Tables, fmt: Format, job: Job, m: Sdram, e: nat, base: Image, blob: seq<Byte>, rs: seq<Record>)
    requires Ready(t, fmt, job, m, e, base, blob, rs) && Consistent(base) && Accepted(rs) && job.accepts(base)
    ensures var image := Edited(t, base, rs);
      && Run(t, fmt, job, m, e, base) == Final(Generated(|rs|), image)
      && Delivered(t, base, rs, image)
      && Run(t, fmt, job, m, e, image)
        == (if job.accepts(image) then Final(Generated(|rs|), base) else Final(BaseMismatch, image))
  {
    var image := Edited(t, base, rs);
    GeneratesReference(t, fmt, job, m, e, base, blob, rs);
    EditedDelivers(t, base, rs);
    StagedStays(m, base, image, e, blob);
    GeneratesReference(t, fmt, job, m, e, image, blob, rs);
    EditTwiceRestores(t, base, rs);
  }

  /** The same for a list packed by the host tool into edits.bin. */
  lemma EditsBinEndToEnd(t: Tables, job: Job, m: Sdram, e: nat, base: Image, rs: seq<Record>)
    requires GeometryOk(t) && Covers(base) && Consistent(base) && Accepted(rs) && CountFits(|rs|)
    requires m.Fits(|base|) && Staged(m.View(base), e, Blob(EDITS, rs)) && Separate(m, |base|, e, Blob(EDITS, rs))
    requires job.layoutVersion >= 4 && job.tpuSz > 0 && job.editsSz == |Blob(EDITS, rs)| && job.accepts(base)
    ensures Run(t, EDITS, job, m, e, base) == Final(Generated(|rs|), Edited(t, base, rs))
    ensures Delivered(t, base, rs, Edited(t, base, rs))
  {
    ParsePack(EDITS, rs);
    EndToEnd(t, EDITS, job, m, e, base, Blob(EDITS, rs), rs);
  }

  lemma RejectedApply(t: Tables, base: Image, rs: seq<Record>, k: nat)
    requires GeometryOk(t) && Covers(base)
    requires k < |rs| && Accepted(rs[..k]) && !Valid(rs[k].Element())
    ensures ApplyAll(t, base, rs).outcome == RecordRejected(k, StatusOf(rs[k]))
    ensures Repair(ApplyAll(t, base, rs).image) == Edited(t, base, rs[..k])
    ensures forall a :: 0 <= a < |base| && IsCrcByte(a) ==> ApplyAll(t, base, rs).image[a] == base[a]
  {
    FirstRejectedIs(rs, 0, k);
    var net := Net(t, rs[..k]);
    NetInside(t, rs[..k], base);
    forall a | 0 <= a < |base| && IsCrcByte(a) ensures XorCells(base, net)[a] == base[a] {
      XorBytes(base, net, a);
    }
  }

  /** A rejected record stops the run: the records before it are in the image, CRC bytes are
      stale, and a full repair would complete the edit by that prefix. */
  lemma RejectedRun(
    t: Tables, fmt: Format, job: Job, m: Sdram, e: nat, base: Image, blob: seq<Byte>, rs: seq<Record>, k: nat)
    requires Ready(t, fmt, job, m, e, base, blob, rs) && job.accepts(base)
    requires k < |rs| && Accepted(rs[..k]) && !Valid(rs[k].Element())
    ensures var final := Run(t, fmt, job, m, e, base);
      && final.outcome == RecordRejected(k, StatusOf(rs[k])) && |final.image| == |base|
      && Repair(final.image) == Edited(t, base, rs[..k])
      && forall a :: 0 <= a < |base| && IsCrcByte(a) ==> final.image[a] == base[a]
  {
    ParsedRun(t, fmt, job, m, e, base, blob, rs);
    RejectedApply(t, base, rs, k);
  }

  lemma FirstRejectedIs(rs: seq<Record>, from: nat, k: nat)
    requires from <= k < |rs| && Accepted(rs[..k]) && !Valid(rs[k].Element())
    ensures FirstRejected(rs, from) == k
  {
    forall i | 0 <= i < k ensures Valid(rs[i].Element()) {
      assert rs[..k][i] == rs[i];
    }
  }
}
