/** The programs around the canon table: the miner, the two rebuilders and the transfer check. */
module CanonGate {
  import opened Words
  import opened Frames
  import opened Cells
  import opened LutCodec
  import opened LutCells
  import opened Geometry
  import opened Canon

  // ---- build_canon_d1pp_table.py ----

  datatype Region = HeaderRegion | LabCram | BlockBand | Postamble

  function ClassifyRegion(a: nat): Region {
    if a < CRAM_START then HeaderRegion
    else if a >= CRAM_END then Postamble
    else if 1692 <= (a - PREAMBLE) / FRAME_SIZE <= 1738 then BlockBand
    else LabCram
  }

  /** Frames 1692 to 1738 are the block band; the other frames with a CRC are LAB memory. */
  lemma RegionBounds(a: nat)
    ensures match ClassifyRegion(a)
      case HeaderRegion => a < 32 + 210 * 25
      case LabCram => 32 + 210 * 25 <= a < 32 + 210 * 1692 || 32 + 210 * 1739 <= a < 32 + 210 * 1752
      case BlockBand => 32 + 210 * 1692 <= a < 32 + 210 * 1739
      case Postamble => 32 + 210 * 1752 <= a
  {
  }

  /** The counter of each region. */
  datatype Counts = Counts(header: nat, labCram: nat, blockBand: nat, postamble: nat) {
    function Of(r: Region): nat {
      match r
      case HeaderRegion => header
      case LabCram => labCram
      case BlockBand => blockBand
      case Postamble => postamble
    }

    function Add(r: Region): Counts {
      match r
      case HeaderRegion => this.(header := header + 1)
      case LabCram => this.(labCram := labCram + 1)
      case BlockBand => this.(blockBand := blockBand + 1)
      case Postamble => this.(postamble := postamble + 1)
    }
  }

  datatype CanonCell = CanonCell(cell: Cell, region: Region)

  /** One mask of one position in the table. */
  datatype Entry =
    Entry(cells: seq<CanonCell>, nQuartus: nat, nPredict: nat, nPerBuild: nat, nCrc: nat, regions: Counts)

  function CellsOf(cells: seq<CanonCell>): seq<Cell> {
    seq(|cells|, i requires 0 <= i < |cells| => cells[i].cell)
  }

  predicate Distinct<T(==)>(xs: seq<T>) {
    forall i, j :: 0 <= i < j < |xs| ==> xs[i] != xs[j]
  }

  function Elements<T>(xs: seq<T>): set<T> {
    set i | 0 <= i < |xs| :: xs[i]
  }

  /** Python's order on pairs of address and bit. */
  predicate Before(c: Cell, d: Cell) {
    c.addr < d.addr || (c.addr == d.addr && c.bit < d.bit)
  }

  predicate Sorted(xs: seq<Cell>) {
    forall i, j :: 0 <= i < j < |xs| ==> Before(xs[i], xs[j])
  }

  predicate IsLeast(c: Cell, cs: set<Cell>) {
    c in cs && forall d :: d in cs && d != c ==> Before(c, d)
  }

  function PerBuildPart(raw: set<Cell>): set<Cell> {
    set c | c in raw && InPerBuildVariable(c.addr)
  }

  function CrcPart(raw: set<Cell>): set<Cell> {
    set c | c in raw && IsCrcByte(c.addr)
  }

  function CanonPart(raw: set<Cell>): set<Cell> {
    set c | c in raw && Mineable(c.addr)
  }

  function InRegion(cs: set<Cell>, r: Region): set<Cell> {
    set c | c in cs && ClassifyRegion(c.addr) == r
  }

  /** The loop body of `mine()`. */
  method MineEntry(qCells: set<Cell>, pCells: set<Cell>) returns (e: Entry)
    ensures Sorted(CellsOf(e.cells)) && Elements(CellsOf(e.cells)) == CanonPart(SymDiff(qCells, pCells))
    ensures forall i :: 0 <= i < |e.cells| ==> e.cells[i].region == ClassifyRegion(e.cells[i].cell.addr)
    ensures forall r :: e.regions.Of(r) == |InRegion(CanonPart(SymDiff(qCells, pCells)), r)|
    ensures e.regions.header == |InRegion(CanonPart(SymDiff(qCells, pCells)), HeaderRegion)|
    ensures e.regions.labCram == |InRegion(CanonPart(SymDiff(qCells, pCells)), LabCram)|
    ensures e.regions.blockBand == |InRegion(CanonPart(SymDiff(qCells, pCells)), BlockBand)|
    ensures e.regions.postamble == |InRegion(CanonPart(SymDiff(qCells, pCells)), Postamble)|
    ensures e.nQuartus == |qCells| && e.nPredict == |pCells|
    ensures e.nPerBuild == |PerBuildPart(SymDiff(qCells, pCells))| && e.nCrc == |CrcPart(SymDiff(qCells, pCells))|
    ensures |SymDiff(qCells, pCells)| == |e.cells| + e.nPerBuild + e.nCrc
  {
    var canonRaw := SymDiff(qCells, pCells);
    var order := SortedCells(CanonPart(canonRaw));
    var cells, regions := TagCells(order);
    assert CellsOf(cells) == order;
    forall r ensures regions.Of(r) == |InRegion(CanonPart(canonRaw), r)| {
      RegionCount(order, r);
    }
    ThreeParts(canonRaw);
    assert regions.Of(HeaderRegion) == regions.header && regions.Of(LabCram) == regions.labCram;
    assert regions.Of(BlockBand) == regions.blockBand && regions.Of(Postamble) == regions.postamble;
    e := Entry(cells, |qCells|, |pCells|, |PerBuildPart(canonRaw)|, |CrcPart(canonRaw)|, regions);
  }

  method SortedCells(canon: set<Cell>) returns (cells: seq<Cell>)
    ensures Sorted(cells) && Elements(cells) == canon && |cells| == |canon|
  {
    cells := [];
    var rest := canon;
    while rest != {}
      invariant Elements(cells) !! rest && Elements(cells) + rest == canon && |cells| + |rest| == |canon|
      invariant Sorted(cells) && forall c, d :: c in Elements(cells) && d in rest ==> Before(c, d)
      decreases rest
    {
      LeastExists(rest);
      var c :| IsLeast(c, rest);
      SortedOneMore(cells, c);
      OneElementMore(cells, c);
      cells, rest := cells + [c], rest - {c};
    }
  }

  lemma {:induction false} LeastExists(cs: set<Cell>)
    requires cs != {}
    ensures exists c :: IsLeast(c, cs)
    decreases |cs|
  {
    var d :| d in cs;
    if cs == {d} {
      assert IsLeast(d, cs);
    } else {
      LeastExists(cs - {d});
      var c :| IsLeast(c, cs - {d});
      Comparable(c, d);
      var least := if Before(d, c) then d else c;
      forall e | e in cs && e != least ensures Before(least, e) {
        assert e == d || e in cs - {d};
      }
      assert IsLeast(least, cs);
    }
  }

  lemma Comparable(c: Cell, d: Cell)
    requires c != d
    ensures Before(c, d) || Before(d, c)
  {
    assert c == Cell(c.addr, c.bit) && d == Cell(d.addr, d.bit);
  }

  lemma SortedOneMore(cells: seq<Cell>, c: Cell)
    requires Sorted(cells) && forall d :: d in Elements(cells) ==> Before(d, c)
    ensures Sorted(cells + [c]) && Distinct(cells) && c !in Elements(cells)
  {
    forall i | 0 <= i < |cells| ensures Before(cells[i], c) {
      assert cells[i] in Elements(cells);
    }
  }

  /** The inner loop: one table cell and one count for each canon cell. */
  method TagCells(order: seq<Cell>) returns (cells: seq<CanonCell>, regions: Counts)
    ensures |cells| == |order|
    ensures forall i :: 0 <= i < |order| ==> cells[i] == CanonCell(order[i], ClassifyRegion(order[i].addr))
    ensures regions == Tally(order, |order|)
  {
    cells, regions := [], Counts(0, 0, 0, 0);
    for k := 0 to |order|
      invariant |cells| == k
      invariant forall i :: 0 <= i < k ==> cells[i] == CanonCell(order[i], ClassifyRegion(order[i].addr))
      invariant regions == Tally(order, k)
    {
      var reg := ClassifyRegion(order[k].addr);
      regions := regions.Add(reg);
      cells := cells + [CanonCell(order[k], reg)];
    }
  }

  function Tally(order: seq<Cell>, k: nat): Counts
    requires k <= |order|
  {
    if k == 0 then Counts(0, 0, 0, 0) else Tally(order, k - 1).Add(ClassifyRegion(order[k - 1].addr))
  }

  /** The members of the first `k` that satisfy `p`. */
  function Chosen<T>(p: T -> bool, xs: seq<T>, k: nat): set<T>
    requires k <= |xs|
  {
    set i | 0 <= i < k && p(xs[i]) :: xs[i]
  }

  lemma ChosenOneMore<T>(p: T -> bool, xs: seq<T>, k: nat)
    requires Distinct(xs) && k < |xs|
    ensures |Chosen(p, xs, k + 1)| == |Chosen(p, xs, k)| + (if p(xs[k]) then 1 else 0)
  {
    assert Chosen(p, xs, k + 1) == Chosen(p, xs, k) + (if p(xs[k]) then {xs[k]} else {});
    assert xs[k] !in Chosen(p, xs, k);
  }

  function IsIn(r: Region): Cell -> bool {
    (c: Cell) => ClassifyRegion(c.addr) == r
  }

  lemma {:induction false} TallyOf(order: seq<Cell>, k: nat, r: Region)
    requires Distinct(order) && k <= |order|
    ensures Tally(order, k).Of(r) == |Chosen(IsIn(r), order, k)|
  {
    if k == 0 {
      assert Chosen(IsIn(r), order, 0) == {};
    } else {
      TallyOf(order, k - 1, r);
      ChosenOneMore(IsIn(r), order, k - 1);
    }
  }

  lemma RegionCount(order: seq<Cell>, r: Region)
    requires Sorted(order)
    ensures Tally(order, |order|).Of(r) == |InRegion(Elements(order), r)|
  {
    TallyOf(order, |order|, r);
    assert Chosen(IsIn(r), order, |order|) == InRegion(Elements(order), r);
  }

  lemma OneElementMore<T>(xs: seq<T>, x: T)
    requires Distinct(xs) && x !in Elements(xs)
    ensures Distinct(xs + [x]) && Elements(xs + [x]) == Elements(xs) + {x}
  {
    assert forall i :: 0 <= i < |xs| ==> xs[i] in Elements(xs);
    forall y | y in Elements(xs) + {x} ensures y in Elements(xs + [x]) {
      if y == x {
        assert (xs + [x])[|xs|] == y;
      } else {
        var i :| 0 <= i < |xs| && xs[i] == y;
        assert (xs + [x])[i] == y;
      }
    }
  }

  /** Nothing of the raw difference is lost: canon, per-build and CRC cells partition it. */
  lemma ThreeParts(raw: set<Cell>)
    ensures |raw| == |CanonPart(raw)| + |PerBuildPart(raw)| + |CrcPart(raw)|
  {
    forall a: nat | InPerBuildVariable(a) ensures !IsCrcByte(a) {
      PerBuildInHeader(a);
    }
    assert raw == CanonPart(raw) + PerBuildPart(raw) + CrcPart(raw);
    assert CanonPart(raw) !! PerBuildPart(raw) && CanonPart(raw) + PerBuildPart(raw) !! CrcPart(raw);
  }

  // ---- test_canon_vs_golden.py ----

  /** The cells a list of canon cells flips; a cell listed twice is flipped back. */
  function ListFlips(cells: seq<Cell>): set<Cell> {
    Fold((c: Cell) => {c}, cells)
  }

  lemma {:induction false} ListFlipsDistinct(cells: seq<Cell>)
    requires Distinct(cells)
    ensures ListFlips(cells) == Elements(cells)
  {
    var f := (c: Cell) => {c};
    if cells == [] {
      assert Fold(f, cells) == {};
    } else {
      var init, c := cells[..|cells| - 1], cells[|cells| - 1];
      ListFlipsDistinct(init);
      assert cells == init + [c];
      FoldSnoc(f, init, c);
      assert Elements(cells) == Elements(init) + {c};
      assert c !in Elements(init);
    }
  }

  predicate ListInImage(s: Image, cells: seq<Cell>) {
    forall i :: 0 <= i < |cells| ==> cells[i].addr < |s| && cells[i].bit < 8
  }

  method FlipList(buf: array<Byte>, cells: seq<Cell>)
    requires ListInImage(buf[..], cells)
    modifies buf
    ensures buf[..] == XorCells(old(buf[..]), ListFlips(cells))
  {
    ghost var was := buf[..];
    ghost var f := (c: Cell) => {c};
    XorNone(was);
    for k := 0 to |cells|
      invariant buf[..] == XorCells(was, Fold(f, cells[..k]))
    {
      FlipCell(buf, cells[k].addr, cells[k].bit);
      XorTwice(was, Fold(f, cells[..k]), {cells[k]});
      FoldSnoc(f, cells[..k], cells[k]);
      assert cells[..k + 1] == cells[..k] + [cells[k]];
      assert cells[k] == Cell(cells[k].addr, cells[k].bit);
    }
    assert cells[..|cells|] == cells;
  }

  /** Two steps, codec first and canon second, then all CRCs: the same image as one XOR with the
      symmetric difference of the two cell sets. */
  method Reconstruct(t: Tables, base: Image, x: nat, y: nat, n: nat, mask: Word16, canonCells: seq<Cell>,
                     applyCanon: bool)
    returns (recon: Image, st: Status)
    requires GeometryOk(t) && CRAM_END <= |base| <= U32 && ListInImage(base, canonCells)
    ensures st == InitStatus(x, y, n)
    ensures st.LcOk? ==>
      recon == Rebuild(base, MaskCells(LutAt(t, x, y, n), mask), if applyCanon then ListFlips(canonCells) else {})
    ensures !st.LcOk? ==> recon == base
  {
    var buf := new Byte[|base|](i requires 0 <= i < |base| => base[i]);
    assert buf[..] == base;
    var lc;
    st, lc := LcInit(t, x, y, n, [0, 0, 0, 0]);
    if st != LcOk {
      return buf[..], st;
    }
    WindowFits(t, Le(x, y, n));
    var dirty := new Byte[BITMAP_BYTES](_ => Zeros(8));
    LutApplyMask(buf, lc, mask, dirty);
    ghost var predicted := MaskCells(lc, mask);
    if applyCanon {
      FlipList(buf, canonCells);
      XorTwice(base, predicted, ListFlips(canonCells));
    } else {
      SymDiffUnit(predicted);
    }
    LcPatchRbfCrc(buf);
    recon := buf[..];
  }

  // ---- verify_canon_d1pp_table.py ----

  /** One step; returns the bytes that still differ from gold. */
  method VerifyBuild(t: Tables, base: Image, gold: Image, e: Le, mask: Word16, canonCells: set<Cell>)
    returns (diffs: set<nat>)
    requires GeometryOk(t) && Valid(e) && CRAM_END <= |base| <= U32 && |gold| == |base| && InImage(base, canonCells)
    ensures diffs == DiffBytes(Rebuild(base, MaskCells(At(t, e), mask), canonCells), gold)
  {
    var st, lc := LcInit(t, e.x, e.y, e.n, [0, 0, 0, 0]);
    WindowFits(t, e);
    var pCells := PredictCells(lc, mask);
    MaskCellsInside(lc, mask, base);
    var delta := SymDiff(pCells, canonCells);
    var recon := XorApply(base, delta);
    var buf := new Byte[|recon|](i requires 0 <= i < |recon| => recon[i]);
    assert buf[..] == recon;
    LcPatchRbfCrc(buf);
    diffs := DiffBytes(buf[..], gold);
  }

  lemma SortedDistinct(cells: seq<Cell>)
    requires Sorted(cells)
    ensures Distinct(cells)
  {
    forall i, j | 0 <= i < j < |cells| ensures cells[i] != cells[j] {
      assert Before(cells[i], cells[j]);
    }
  }

  /** The acceptance run of the consumer: mine against a gold image, list the cells, rebuild with
      the on-chip code. No byte outside the per-build ranges differs. */
  lemma MineThenReconstruct(t: Tables, base: Image, gold: Image, e: Le, mask: Word16, cells: seq<Cell>)
    requires GeometryOk(t) && Valid(e) && Covers(base) && |base| == |gold| && Consistent(gold)
    requires Sorted(cells) && Elements(cells) == CanonPart(SymDiff(Diff(base, gold), MaskCells(At(t, e), mask)))
    ensures DiffBytes(Rebuild(base, MaskCells(At(t, e), mask), ListFlips(cells)), gold) == {}
  {
    SortedDistinct(cells);
    ListFlipsDistinct(cells);
    GateDecidesMined(base, gold, MaskCells(At(t, e), mask), ListFlips(cells));
  }

  // ---- analyze_iron_transfer.py ----

  predicate BitAt(s: Image, c: Cell)
    requires c.addr < |s| && c.bit < 8
  {
    s[c.addr][c.bit]
  }

  function Collisions(prod: Image, gold0: Image, delta: set<Cell>): set<Cell>
    requires InImage(prod, delta) && InImage(gold0, delta)
  {
    set c | c in delta && BitAt(prod, c) != BitAt(gold0, c)
  }

  /** Touched cells that do not end up as in the gold image. */
  function Wrong(prod: Image, goldM: Image, delta: set<Cell>): set<Cell>
    requires InImage(prod, delta) && InImage(goldM, delta)
  {
    set c | c in delta && BitAt(XorCells(prod, delta), c) != BitAt(goldM, c)
  }

  /** How a collision is labelled: by its region in the canon table, or as LUT data. */
  datatype Label = InTable(region: Region) | LutData

  function LabelIn(canon: map<Cell, Region>): Cell -> Label {
    c => if c in canon then InTable(canon[c]) else LutData
  }

  function Labelled<L(==)>(mark: Cell -> L, cs: set<Cell>, l: L): set<Cell> {
    set c | c in cs && mark(c) == l
  }

  /** `counts` has exactly the labels that occur, each with the number of its cells. */
  ghost predicate Counted<L>(mark: Cell -> L, cs: set<Cell>, counts: map<L, nat>) {
    && counts.Keys == (set c | c in cs :: mark(c))
    && forall l :: l in counts ==> counts[l] == |Labelled(mark, cs, l)|
  }

  function CountUp<L>(counts: map<L, nat>, l: L): map<L, nat> {
    counts[l := (if l in counts then counts[l] else 0) + 1]
  }

  lemma LabelledOneMore<L>(mark: Cell -> L, cs: set<Cell>, c: Cell, l: L)
    requires c !in cs
    ensures |Labelled(mark, cs + {c}, l)| == |Labelled(mark, cs, l)| + (if mark(c) == l then 1 else 0)
    ensures l !in (set d | d in cs :: mark(d)) ==> |Labelled(mark, cs, l)| == 0
  {
    assert Labelled(mark, cs + {c}, l) == Labelled(mark, cs, l) + (if mark(c) == l then {c} else {});
    if l !in (set d | d in cs :: mark(d)) {
      assert Labelled(mark, cs, l) == {};
    }
  }

  lemma CountedOneMore<L>(mark: Cell -> L, cs: set<Cell>, counts: map<L, nat>, c: Cell)
    requires Counted(mark, cs, counts) && c !in cs
    ensures Counted(mark, cs + {c}, CountUp(counts, mark(c)))
  {
    forall l | l in CountUp(counts, mark(c)) ensures CountUp(counts, mark(c))[l] == |Labelled(mark, cs + {c}, l)| {
      LabelledOneMore(mark, cs, c, l);
    }
  }

  /** Cells of the canon table count for the region the table gives, all others as LUT data. */
  lemma LabelCounts(canon: map<Cell, Region>, cs: set<Cell>, counts: map<Label, nat>)
    requires Counted(LabelIn(canon), cs, counts)
    ensures forall r :: InTable(r) in counts ==> counts[InTable(r)] == |set c | c in cs && c in canon && canon[c] == r|
    ensures LutData in counts ==> counts[LutData] == |set c | c in cs && c !in canon|
    ensures forall r :: InTable(r) in counts <==> exists c :: c in cs && c in canon && canon[c] == r
    ensures LutData in counts <==> exists c :: c in cs && c !in canon
  {
    forall r ensures Labelled(LabelIn(canon), cs, InTable(r)) == set c | c in cs && c in canon && canon[c] == r {
    }
    assert Labelled(LabelIn(canon), cs, LutData) == set c | c in cs && c !in canon;
    forall r ensures InTable(r) in counts <==> exists c :: c in cs && c in canon && canon[c] == r {
      if c :| c in cs && c in canon && canon[c] == r {
        assert LabelIn(canon)(c) == InTable(r);
      }
    }
    if c :| c in cs && c !in canon {
      assert LabelIn(canon)(c) == LutData;
    }
  }

  /** The collision loop: the colliding cells, their number, and their number for each label. */
  method CollisionLoop(prod: Image, gold0: Image, delta: set<Cell>, canon: map<Cell, Region>)
    returns (coll: set<Cell>, count: nat, regCount: map<Label, nat>)
    requires InImage(prod, delta) && InImage(gold0, delta)
    ensures coll == Collisions(prod, gold0, delta) && count == |coll|
    ensures Counted(LabelIn(canon), coll, regCount)
  {
    coll, count, regCount := {}, 0, map[];
    var rest := delta;
    while rest != {}
      invariant rest <= delta
      invariant coll == Collisions(prod, gold0, delta - rest) && count == |coll|
      invariant Counted(LabelIn(canon), coll, regCount)
    {
      var c :| c in rest;
      if BitAt(prod, c) != BitAt(gold0, c) {
        CountedOneMore(LabelIn(canon), coll, regCount, c);
        coll, count, regCount := coll + {c}, count + 1, CountUp(regCount, LabelIn(canon)(c));
      }
      rest := rest - {c};
    }
    assert delta - rest == delta;
  }

  /** When the cells to flip are places where the two gold images differ, the collisions are
      exactly the touched cells that come out wrong, whatever the production image holds. */
  lemma CollisionsAreWrong(prod: Image, gold0: Image, goldM: Image, delta: set<Cell>)
    requires |gold0| == |goldM| && InImage(prod, delta) && InImage(gold0, delta)
    requires delta <= Diff(gold0, goldM)
    ensures Collisions(prod, gold0, delta) == Wrong(prod, goldM, delta)
  {
    forall c | c in delta
      ensures BitAt(prod, c) != BitAt(gold0, c) <==> BitAt(XorCells(prod, delta), c) != BitAt(goldM, c)
    {
      assert c == Cell(c.addr, c.bit);
    }
  }

  /** The net cells of a mined mask are such places: every one of them, if the predicted cells
      avoid per-build and CRC bytes. */
  lemma NetCellsDiffer(gold0: Image, goldM: Image, predicted: set<Cell>)
    requires |gold0| == |goldM| && forall c :: c in predicted ==> Mineable(c.addr)
    ensures SymDiff(predicted, Mined(gold0, goldM, predicted)) == CanonPart(Diff(gold0, goldM))
  {
  }

  /** Zero reported collisions if and only if every touched cell holds the gold value afterwards. */
  lemma TransferSafe(prod: Image, gold0: Image, goldM: Image, predicted: set<Cell>)
    requires |prod| == |gold0| == |goldM| && forall c :: c in predicted ==> Mineable(c.addr)
    ensures var delta := SymDiff(predicted, Mined(gold0, goldM, predicted));
      && InImage(prod, delta)
      && (Collisions(prod, gold0, delta) == {}
          <==> forall c :: c in delta ==> BitAt(XorCells(prod, delta), c) == BitAt(goldM, c))
      && |Collisions(prod, gold0, delta)| == |Wrong(prod, goldM, delta)|
  {
    var delta := SymDiff(predicted, Mined(gold0, goldM, predicted));
    NetCellsDiffer(gold0, goldM, predicted);
    CollisionsAreWrong(prod, gold0, goldM, delta);
    if Collisions(prod, gold0, delta) == {} {
      forall c | c in delta ensures BitAt(XorCells(prod, delta), c) == BitAt(goldM, c) {
        assert c !in Wrong(prod, goldM, delta);
      }
    } else {
      var c :| c in Collisions(prod, gold0, delta);
      assert c in Wrong(prod, goldM, delta);
    }
  }
}
