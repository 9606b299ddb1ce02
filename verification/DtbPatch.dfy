/** The in-place scan that writes the initial ramdisk's end address over a sentinel. */
module DtbPatch {
  import opened Words

  const INITRD_LOAD_ADDR := 0x41F8_0000

  predicate SentinelAt(d: seq<Octet>, i: nat) {
    i + 4 <= |d| && d[i] == 0xC0 && d[i + 1] == 0xDE && d[i + 2] == 0xDE && d[i + 3] == 0xAD
  }

  /** A flattened device tree cell: four bytes, most significant first. */
  function CellAt(d: seq<Octet>, i: nat): nat
    requires i + 4 <= |d|
  {
    0x100_0000 * (d[i] as int) + 0x1_0000 * (d[i + 1] as int) + 0x100 * (d[i + 2] as int) + d[i + 3]
  }

  function RealEnd(initrdSize: nat): (e: nat)
    ensures e < U32
  {
    (INITRD_LOAD_ADDR + initrdSize) % U32
  }

  /** `d` with the bytes `w` written at `i`. */
  function Written(d: seq<Octet>, i: nat, w: seq<Octet>): (r: seq<Octet>)
    requires i + 4 <= |d| && |w| == 4
    ensures |r| == |d|
    ensures forall j :: 0 <= j < |d| ==> r[j] == if i <= j < i + 4 then w[j - i] else d[j]
  {
    d[i := w[0]][i + 1 := w[1]][i + 2 := w[2]][i + 3 := w[3]]
  }

  datatype Scanned = Scanned(dtb: seq<Octet>, patched: nat)

  /** The scan from position `i` on; a write is seen by the tests at the next three positions. */
  function Scan(d: seq<Octet>, i: nat, w: seq<Octet>): (r: Scanned)
    requires |w| == 4
    ensures |r.dtb| == |d|
    decreases |d| - i
  {
    if i + 4 > |d| then Scanned(d, 0)
    else if SentinelAt(d, i) then
      var rest := Scan(Written(d, i, w), i + 1, w);
      Scanned(rest.dtb, rest.patched + 1)
    else Scan(d, i + 1, w)
  }

  function BigEndian(v: nat): (w: seq<Octet>)
    requires v < U32
    ensures |w| == 4
  {
    [v / 0x100_0000 % 0x100, v / 0x1_0000 % 0x100, v / 0x100 % 0x100, v % 0x100]
  }

  lemma BigEndianReads(v: nat)
    requires v < U32
    ensures CellAt(BigEndian(v), 0) == v
  {
    var c, b, a := v / 0x100, v / 0x1_0000, v / 0x100_0000;
    assert c / 0x100 == b;
    assert b / 0x100 == a;
    assert v == 0x100 * c + v % 0x100;
    assert c == 0x100 * b + c % 0x100;
    assert b == 0x100 * a + b % 0x100;
  }

  method PatchDtbInitrdEnd(dtb: array<Octet>, initrdSize: nat) returns (patched: nat)
    requires dtb.Length < U32 - 1 && initrdSize < U32
    modifies dtb
    ensures Scanned(dtb[..], patched) == Scan(old(dtb[..]), 0, BigEndian(RealEnd(initrdSize)))
  {
    var realEnd := (INITRD_LOAD_ADDR + initrdSize) % U32;
    ghost var w, whole := BigEndian(realEnd), Scan(dtb[..], 0, BigEndian(realEnd));
    patched := 0;
    var i := 0;
    while i + 4 <= dtb.Length
      invariant Scan(dtb[..], i, w).dtb == whole.dtb && patched + Scan(dtb[..], i, w).patched == whole.patched
    {
      ghost var before := dtb[..];
      if dtb[i] == 0xC0 && dtb[i + 1] == 0xDE && dtb[i + 2] == 0xDE && dtb[i + 3] == 0xAD {
        dtb[i] := realEnd / 0x100_0000 % 0x100;
        dtb[i + 1] := realEnd / 0x1_0000 % 0x100;
        dtb[i + 2] := realEnd / 0x100 % 0x100;
        dtb[i + 3] := realEnd % 0x100;
        assert dtb[..] == Written(before, i, w);
        patched := patched + 1;
      }
      i := i + 1;
    }
  }

  // ---- what the return value says ----

  /** No sentinel at position `i` or later. */
  ghost predicate NoneFrom(d: seq<Octet>, i: nat) {
    forall j :: i <= j < |d| ==> !SentinelAt(d, j)
  }

  /** The written bytes, with what follows them, look like another sentinel. */
  predicate Relapses(d: seq<Octet>, i: nat, w: seq<Octet>)
    requires i + 4 <= |d| && |w| == 4
  {
    exists j | i < j < i + 4 :: SentinelAt(Written(d, i, w), j)
  }

  predicate OnlySentinel(d: seq<Octet>, i: nat) {
    SentinelAt(d, i) && forall j :: 0 <= j < |d| && j != i ==> !SentinelAt(d, j)
  }

  lemma {:induction false} ScanNone(d: seq<Octet>, i: nat, w: seq<Octet>)
    requires |w| == 4
    ensures Scan(d, i, w).patched == 0 <==> NoneFrom(d, i)
    ensures NoneFrom(d, i) ==> Scan(d, i, w) == Scanned(d, 0)
    decreases |d| - i
  {
    if i + 4 <= |d| && !SentinelAt(d, i) {
      ScanNone(d, i + 1, w);
    }
  }

  /** Two sentinels never overlap. */
  lemma SentinelsApart(d: seq<Octet>, i: nat, j: nat)
    requires SentinelAt(d, i) && SentinelAt(d, j) && i < j
    ensures j >= i + 4
  {
  }

  lemma {:induction false} ScanFirst(d: seq<Octet>, from: nat, i: nat, w: seq<Octet>)
    requires |w| == 4 && from <= i && SentinelAt(d, i) && forall j :: from <= j < i ==> !SentinelAt(d, j)
    ensures Scan(d, from, w).patched == 1 <==> NoneFrom(d, i + 4) && !Relapses(d, i, w)
    ensures Scan(d, from, w).patched == 1 ==> Scan(d, from, w).dtb == Written(d, i, w)
    decreases i - from
  {
    if from < i {
      ScanFirst(d, from + 1, i, w);
    } else {
      var now := Written(d, i, w);
      ScanNone(now, i + 1, w);
      assert forall j :: i + 4 <= j ==> (SentinelAt(now, j) <==> SentinelAt(d, j));
      if NoneFrom(d, i + 4) && !Relapses(d, i, w) {
        forall j | i + 1 <= j < |d| ensures !SentinelAt(now, j) {
          if j >= i + 4 {
            assert !SentinelAt(d, j);
          }
        }
      }
    }
  }

  /** The call returns 1 exactly when the blob holds one sentinel and the write does not make
      another; then only the four bytes of that cell change, and they hold the ramdisk's end. */
  lemma PatchedOnce(d: seq<Octet>, initrdSize: nat)
    ensures var w := BigEndian(RealEnd(initrdSize));
      && (Scan(d, 0, w).patched == 1 <==> exists i :: 0 <= i < |d| && OnlySentinel(d, i) && !Relapses(d, i, w))
      && forall i :: 0 <= i < |d| && OnlySentinel(d, i) && !Relapses(d, i, w) ==>
        Scan(d, 0, w).dtb == Written(d, i, w)
        && CellAt(Scan(d, 0, w).dtb, i) == (0x41F8_0000 + initrdSize) % 0x1_0000_0000
  {
    var w := BigEndian(RealEnd(initrdSize));
    BigEndianReads(RealEnd(initrdSize));
    forall i | 0 <= i < |d| && OnlySentinel(d, i) && !Relapses(d, i, w)
      ensures Scan(d, 0, w).patched == 1 && Scan(d, 0, w).dtb == Written(d, i, w)
      ensures CellAt(Written(d, i, w), i) == CellAt(w, 0)
    {
      ScanFirst(d, 0, i, w);
    }
    ScanNone(d, 0, w);
    if Scan(d, 0, w).patched == 1 {
      var i := FirstSentinel(d, 0);
      ScanFirst(d, 0, i, w);
      forall j | 0 <= j < |d| && j != i ensures !SentinelAt(d, j) {
        if SentinelAt(d, j) {
          SentinelsApart(d, i, j);
        }
      }
      assert OnlySentinel(d, i);
    }
  }

  lemma FirstSentinel(d: seq<Octet>, from: nat) returns (i: nat)
    requires !NoneFrom(d, from)
    ensures from <= i < |d| && SentinelAt(d, i) && forall j :: from <= j < i ==> !SentinelAt(d, j)
    decreases |d| - from
  {
    if SentinelAt(d, from) {
      i := from;
    } else {
      i := FirstSentinel(d, from + 1);
    }
  }

  /** The write makes another sentinel exactly when its own last bytes begin one that the next
      bytes of the blob complete. */
  lemma RelapsesWhen(d: seq<Octet>, i: nat, w: seq<Octet>)
    requires i + 4 <= |d| && |w| == 4
    ensures Relapses(d, i, w) <==>
      || (i + 5 <= |d| && w[1..] + d[i + 4..i + 5] == [0xC0, 0xDE, 0xDE, 0xAD])
      || (i + 6 <= |d| && w[2..] + d[i + 4..i + 6] == [0xC0, 0xDE, 0xDE, 0xAD])
      || (i + 7 <= |d| && w[3..] + d[i + 4..i + 7] == [0xC0, 0xDE, 0xDE, 0xAD])
  {
    var r := Written(d, i, w);
    if i + 5 <= |d| {
      assert r[i + 1..i + 5] == w[1..] + d[i + 4..i + 5];
      SentinelSlice(r, i + 1);
    }
    if i + 6 <= |d| {
      assert r[i + 2..i + 6] == w[2..] + d[i + 4..i + 6];
      SentinelSlice(r, i + 2);
    }
    if i + 7 <= |d| {
      assert r[i + 3..i + 7] == w[3..] + d[i + 4..i + 7];
      SentinelSlice(r, i + 3);
    }
  }

  lemma SentinelSlice(r: seq<Octet>, j: nat)
    requires j + 4 <= |r|
    ensures SentinelAt(r, j) <==> r[j..j + 4] == [0xC0, 0xDE, 0xDE, 0xAD]
  {
    var q := r[j..j + 4];
    assert q[0] == r[j] && q[1] == r[j + 1] && q[2] == r[j + 2] && q[3] == r[j + 3];
  }

  function Sentinels(d: seq<Octet>, i: nat): nat
    decreases |d| - i
  {
    if i >= |d| then 0 else (if SentinelAt(d, i) then 1 else 0) + Sentinels(d, i + 1)
  }

  lemma {:induction false} SentinelsSame(d: seq<Octet>, e: seq<Octet>, i: nat)
    requires |d| == |e| && forall j :: i <= j < |d| ==> (SentinelAt(d, j) <==> SentinelAt(e, j))
    ensures Sentinels(d, i) == Sentinels(e, i)
    decreases |d| - i
  {
    if i < |d| {
      SentinelsSame(d, e, i + 1);
    }
  }

  /** More sentinels, and how many at least. */
  lemma {:induction false} SentinelsMore(d: seq<Octet>, e: seq<Octet>, i: nat)
    requires |d| == |e| && forall j :: i <= j < |d| && SentinelAt(d, j) ==> SentinelAt(e, j)
    ensures Sentinels(d, i) <= Sentinels(e, i)
    ensures (exists j :: i <= j < |d| && SentinelAt(e, j) && !SentinelAt(d, j)) ==> Sentinels(d, i) < Sentinels(e, i)
    decreases |d| - i
  {
    if i < |d| {
      SentinelsMore(d, e, i + 1);
    }
  }

  /** A write keeps every later sentinel, and adds one exactly when it relapses. */
  lemma WriteAdds(d: seq<Octet>, i: nat, w: seq<Octet>)
    requires |w| == 4 && SentinelAt(d, i)
    ensures Sentinels(Written(d, i, w), i + 1) >= Sentinels(d, i + 1)
    ensures Sentinels(Written(d, i, w), i + 1) == Sentinels(d, i + 1) <==> !Relapses(d, i, w)
  {
    var now := Written(d, i, w);
    forall j | i + 1 <= j < |d| && SentinelAt(d, j) ensures SentinelAt(now, j) {
      SentinelsApart(d, i, j);
    }
    SentinelsMore(d, now, i + 1);
    if Relapses(d, i, w) {
      var j :| i < j < i + 4 && SentinelAt(now, j);
      if SentinelAt(d, j) {
        SentinelsApart(d, i, j);
      }
    } else {
      SentinelsSame(d, now, i + 1);
    }
  }

  lemma {:induction false} ScanAtLeast(d: seq<Octet>, i: nat, w: seq<Octet>)
    requires |w| == 4
    ensures Scan(d, i, w).patched >= Sentinels(d, i)
    decreases |d| - i
  {
    if i + 4 > |d| {
      SentinelsNone(d, i);
    } else if SentinelAt(d, i) {
      WriteAdds(d, i, w);
      ScanAtLeast(Written(d, i, w), i + 1, w);
    } else {
      ScanAtLeast(d, i + 1, w);
    }
  }

  /** Some sentinel at `i` or later is completed again by its own write. */
  ghost predicate RelapsesFrom(d: seq<Octet>, i: nat, w: seq<Octet>)
    requires |w| == 4
  {
    exists j :: i <= j < |d| && SentinelAt(d, j) && Relapses(d, j, w)
  }

  /** A write that does not relapse changes nothing for the sentinels after it. */
  lemma LaterRelapses(d: seq<Octet>, i: nat, w: seq<Octet>)
    requires |w| == 4 && SentinelAt(d, i) && !Relapses(d, i, w)
    ensures RelapsesFrom(Written(d, i, w), i + 1, w) <==> RelapsesFrom(d, i, w)
  {
    var now := Written(d, i, w);
    forall j | i < j < |d|
      ensures SentinelAt(now, j) && Relapses(now, j, w) <==> SentinelAt(d, j) && Relapses(d, j, w)
    {
      if SentinelAt(d, j) {
        SentinelsApart(d, i, j);
      }
      if SentinelAt(now, j) || SentinelAt(d, j) {
        assert j >= i + 4;
        SameRelapse(d, now, j, w);
      }
    }
  }

  lemma SameRelapse(d: seq<Octet>, e: seq<Octet>, j: nat, w: seq<Octet>)
    requires |w| == 4 && j + 4 <= |d| && |d| == |e| && forall k :: j <= k < |d| ==> d[k] == e[k]
    ensures Relapses(d, j, w) <==> Relapses(e, j, w)
  {
    forall k | j < k < j + 4 ensures SentinelAt(Written(d, j, w), k) <==> SentinelAt(Written(e, j, w), k) {
    }
  }

  /** The return value is the number of sentinels the blob held if and only if no sentinel of the
      blob is completed again by its own write; otherwise it is larger. */
  lemma {:induction false} CountsExactlyWhen(d: seq<Octet>, i: nat, w: seq<Octet>)
    requires |w| == 4
    ensures Scan(d, i, w).patched == Sentinels(d, i) <==> !RelapsesFrom(d, i, w)
    decreases |d| - i
  {
    if i + 4 > |d| {
      SentinelsNone(d, i);
    } else if SentinelAt(d, i) {
      WriteAdds(d, i, w);
      if Relapses(d, i, w) {
        ScanAtLeast(Written(d, i, w), i + 1, w);
      } else {
        LaterRelapses(d, i, w);
        CountsExactlyWhen(Written(d, i, w), i + 1, w);
      }
    } else {
      CountsExactlyWhen(d, i + 1, w);
    }
  }

  /** In particular it counts right whenever the three low bytes of the address are not C0. */
  lemma ScanCounts(d: seq<Octet>, i: nat, w: seq<Octet>)
    requires |w| == 4 && w[1] != 0xC0 && w[2] != 0xC0 && w[3] != 0xC0
    ensures Scan(d, i, w).patched == Sentinels(d, i)
  {
    CountsExactlyWhen(d, i, w);
  }

  lemma {:induction false} SentinelsNone(d: seq<Octet>, i: nat)
    requires NoneFrom(d, i)
    ensures Sentinels(d, i) == 0
    decreases |d| - i
  {
    if i < |d| {
      SentinelsNone(d, i + 1);
    }
  }

  /** With a ramdisk of 49374 bytes a blob with one sentinel, followed by DE AD, is patched twice. */
  lemma RelapseHappens()
    ensures var d := [0xC0, 0xDE, 0xDE, 0xAD, 0xDE, 0xAD];
      OnlySentinel(d, 0) && Scan(d, 0, BigEndian(RealEnd(49374))).patched == 2
  {
    var d := [0xC0, 0xDE, 0xDE, 0xAD, 0xDE, 0xAD];
    var w := BigEndian(RealEnd(49374));
    assert w == [0x41, 0xF8, 0xC0, 0xDE];
    var e := Written(d, 0, w);
    assert e == [0x41, 0xF8, 0xC0, 0xDE, 0xDE, 0xAD];
    assert !SentinelAt(e, 1) && SentinelAt(e, 2);
    var f := Written(e, 2, w);
    assert Scan(f, 3, w).patched == 0;
    assert Scan(e, 2, w).patched == 1;
    assert Scan(e, 1, w).patched == 1;
  }
}
