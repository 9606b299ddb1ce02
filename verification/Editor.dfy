/** Edit lists: what a list of records, applied one after another, does to an image. */
module Editor {
  import opened Words
  import opened Frames
  import opened Cells
  import opened LutCodec
  import opened LutCells
  import opened Geometry

  /** One 8-byte record of edits.bin. */
  datatype Record = Record(x: nat, y: nat, n: nat, mask: Word16) {
    function Element(): Le {
      Le(x, y, n)
    }
  }

  function StatusOf(r: Record): Status {
    InitStatus(r.x, r.y, r.n)
  }

  /** `lc_init` accepts every record. */
  predicate Accepted(rs: seq<Record>) {
    forall i :: 0 <= i < |rs| ==> Valid(rs[i].Element())
  }

  /** The cells one record flips; none if `lc_init` rejects it. */
  function RecordCells(t: Tables, r: Record): set<Cell>
    requires TablesOk(t)
  {
    if Valid(r.Element()) then MaskCells(At(t, r.Element()), r.mask) else {}
  }

  function Flips(t: Tables): Record -> set<Cell> {
    r => if TablesOk(t) then RecordCells(t, r) else {}
  }

  /** The cells that end up flipped: those flipped an odd number of times. */
  function Net(t: Tables, rs: seq<Record>): set<Cell> {
    Fold(Flips(t), rs)
  }

  /** The XOR of all masks aimed at one element. */
  function NetMask(rs: seq<Record>, e: Le): (m: Word16) {
    if rs == [] then Zeros(16)
    else
      var m := NetMask(rs[..|rs| - 1], e);
      if rs[|rs| - 1].Element() == e then Xor(m, rs[|rs| - 1].mask) else m
  }

  function TouchedFrames(t: Tables, rs: seq<Record>): set<nat>
    requires TablesOk(t)
  {
    FoldFrames(Flips(t), rs)
  }

  /** The reference meaning of an edit list: flip the net cells, then repair every frame. */
  function Edited(t: Tables, s: Image, rs: seq<Record>): (r: Image)
    requires TablesOk(t) && Accepted(rs) && Covers(s)
    ensures |r| == |s|
  {
    Repair(XorCells(s, Net(t, rs)))
  }

  // ---- the net cells ----

  /** A cell of an element is in the net set exactly when the element's net mask has its bit. */
  lemma {:induction false} NetBit(t: Tables, rs: seq<Record>, e: Le, b: nat)
    requires GeometryOk(t) && Accepted(rs) && Valid(e) && b < 16
    ensures MintermCell(At(t, e), b) in Net(t, rs) <==> NetMask(rs, e)[b]
  {
    if rs != [] {
      var r := rs[|rs| - 1];
      NetBit(t, rs[..|rs| - 1], e, b);
      if r.Element() == e {
        MintermInMask(At(t, e), r.mask, b);
      } else {
        DifferentApart(t, e, r.Element());
      }
    }
  }

  /** Nothing but cells of edited elements is ever flipped. */
  lemma {:induction false} NetOnly(t: Tables, rs: seq<Record>, c: Cell)
    requires TablesOk(t) && Accepted(rs) && c in Net(t, rs)
    ensures exists i, b :: 0 <= i < |rs| && 0 <= b < 16 && c == MintermCell(At(t, rs[i].Element()), b)
  {
    var k := |rs| - 1;
    if c in RecordCells(t, rs[k]) {
      var b :| 0 <= b < 16 && c == MintermCell(At(t, rs[k].Element()), b);
    } else {
      NetOnly(t, rs[..k], c);
      var i, b :| 0 <= i < k && 0 <= b < 16 && c == MintermCell(At(t, rs[..k][i].Element()), b);
      assert rs[..k][i] == rs[i];
    }
  }

  lemma NetInside(t: Tables, rs: seq<Record>, s: Image)
    requires GeometryOk(t) && Accepted(rs) && Covers(s)
    ensures InImage(s, Net(t, rs))
    ensures forall c :: c in Net(t, rs) ==> !IsCrcByte(c.addr)
  {
    forall c | c in Net(t, rs) ensures c.addr < |s| && c.bit < 8 && !IsCrcByte(c.addr) {
      NetOnly(t, rs, c);
      var i, b :| 0 <= i < |rs| && 0 <= b < 16 && c == MintermCell(At(t, rs[i].Element()), b);
      MintermOnData(t, rs[i].Element(), b);
    }
  }

  lemma AcceptedConcat(rs: seq<Record>, qs: seq<Record>)
    requires Accepted(rs) && Accepted(qs)
    ensures Accepted(rs + qs)
  {
  }

  lemma AcceptedPermuted(rs: seq<Record>, qs: seq<Record>)
    requires Accepted(rs) && multiset(rs) == multiset(qs)
    ensures Accepted(qs)
  {
    forall i | 0 <= i < |qs| ensures Valid(qs[i].Element()) {
      assert qs[i] in multiset(rs);
    }
  }

  /** The order of the records does not matter. */
  lemma EditsCommute(t: Tables, s: Image, rs: seq<Record>, qs: seq<Record>)
    requires TablesOk(t) && Accepted(rs) && Covers(s) && multiset(rs) == multiset(qs)
    ensures Accepted(qs) && Edited(t, s, rs) == Edited(t, s, qs)
  {
    AcceptedPermuted(rs, qs);
    FoldPermuted(Flips(t), rs, qs);
  }

  // ---- edited images ----

  /** Editing by one list and then by another is editing by their concatenation. */
  lemma EditsCompose(t: Tables, s: Image, rs: seq<Record>, qs: seq<Record>)
    requires TablesOk(t) && Accepted(rs) && Accepted(qs) && Covers(s)
    ensures Accepted(rs + qs)
    ensures Edited(t, Edited(t, s, rs), qs) == Edited(t, s, rs + qs)
  {
    AcceptedConcat(rs, qs);
    FoldConcat(Flips(t), rs, qs);
    var mid := XorCells(s, Net(t, rs));
    var left, right := XorCells(Repair(mid), Net(t, qs)), XorCells(mid, Net(t, qs));
    forall a | 0 <= a < |s| && !IsCrcByte(a) ensures left[a] == right[a] {
      assert Repair(mid)[a] == mid[a];
    }
    RepairEqual(left, right);
    XorTwice(s, Net(t, rs), Net(t, qs));
  }

  /** Running a list a second time gives the original image back, byte for byte. */
  lemma EditTwiceRestores(t: Tables, base: Image, rs: seq<Record>)
    requires TablesOk(t) && Accepted(rs) && Covers(base) && Consistent(base)
    ensures Edited(t, Edited(t, base, rs), rs) == base
  {
    EditsCompose(t, base, rs, rs);
    FoldConcat(Flips(t), rs, rs);
    SymDiffUnit(Net(t, rs));
    XorNone(base);
    RepairFixpoint(base);
  }

  lemma RepairInvisible(s: Image, lc: Lut)
    requires Covers(s) && WellFormed(lc)
    requires forall b :: 0 <= b < 16 ==> !IsCrcByte(MintermCell(lc, b).addr)
    ensures ReadMask(Repair(s), lc) == ReadMask(s, lc)
  {
    forall b | 0 <= b < 16 ensures ReadMask(Repair(s), lc)[b] == ReadMask(s, lc)[b] {
      var a := MintermCell(lc, b).addr;
      assert !IsCrcByte(a);
    }
  }

  /** Every whitelisted element, edited or not, reads back as its old mask XOR all masks aimed at it. */
  lemma ReadEdited(t: Tables, base: Image, rs: seq<Record>, e: Le)
    requires GeometryOk(t) && Covers(base) && Accepted(rs) && Valid(e)
    ensures ReadMask(Edited(t, base, rs), At(t, e)) == Xor(ReadMask(base, At(t, e)), NetMask(rs, e))
  {
    var lc, s := At(t, e), XorCells(base, Net(t, rs));
    WindowFits(t, e);
    forall b | 0 <= b < 16 ensures !IsCrcByte(MintermCell(lc, b).addr) {
      MintermOnData(t, e, b);
    }
    RepairInvisible(s, lc);
    forall b | 0 <= b < 16
      ensures ReadMask(s, lc)[b] == Xor(ReadMask(base, lc), NetMask(rs, e))[b]
    {
      NetBit(t, rs, e, b);
    }
  }

  /** The cell belongs to no element of the list. */
  ghost predicate Unedited(t: Tables, rs: seq<Record>, c: Cell)
    requires TablesOk(t) && Accepted(rs)
  {
    forall i, b :: 0 <= i < |rs| && 0 <= b < 16 ==> MintermCell(At(t, rs[i].Element()), b) != c
  }

  /** A data bit that belongs to no edited element keeps its value. */
  lemma OtherBitsKept(t: Tables, base: Image, rs: seq<Record>, a: nat, p: nat)
    requires TablesOk(t) && Covers(base) && Accepted(rs)
    requires a < |base| && p < 8 && !IsCrcByte(a) && Unedited(t, rs, Cell(a, p))
    ensures Edited(t, base, rs)[a][p] == base[a][p]
  {
    if Cell(a, p) in Net(t, rs) {
      NetOnly(t, rs, Cell(a, p));
      assert false;
    }
  }

  /** A frame that no record touches keeps all its bytes, its CRC included. */
  lemma OtherFramesKept(t: Tables, base: Image, rs: seq<Record>, a: nat)
    requires TablesOk(t) && Covers(base) && Consistent(base) && Accepted(rs)
    requires InCram(a) && FrameOf(a) !in TouchedFrames(t, rs)
    ensures Edited(t, base, rs)[a] == base[a]
  {
    FoldFramesCover(Flips(t), rs);
    DirtyRepairIsFull(base, Net(t, rs), TouchedFrames(t, rs));
    assert forall c :: c in Net(t, rs) && InCram(c.addr) ==> FrameOf(c.addr) in FramesOf(Net(t, rs));
    XorBytes(base, Net(t, rs), a);
  }
}
