/** The XMODEM receiver of the Linux boot loader, over a finite stream followed by silence. */
module Xmodem {
  import opened Words

  const SOH: Octet := 0x01
  const EOT: Octet := 0x04
  const ACK: Octet := 0x06
  const NAK: Octet := 0x15
  const CAN: Octet := 0x18
  const BLOCK_SIZE := 128
  const RETRY_MAX := 20

  /** What one call of `uart_getc_timeout` returns: a byte, or -1 for a timeout. */
  type Event = c: int | -1 <= c < 256

  function EventAt(s: seq<Event>, pos: nat): Event {
    if pos < |s| then s[pos] else -1
  }

  function After(s: seq<Event>, pos: nat): nat {
    if pos < |s| then pos + 1 else pos
  }

  class Uart {
    const stream: seq<Event>
    var pos: nat
    var sent: seq<Octet>

    ghost predicate Valid()
      reads this
    {
      pos <= |stream|
    }

    constructor (stream: seq<Event>)
      ensures Valid() && this.stream == stream && pos == 0 && sent == []
    {
      this.stream, pos, sent := stream, 0, [];
    }

    method GetcTimeout() returns (c: Event)
      requires Valid()
      modifies `pos
      ensures Valid() && pos == After(stream, old(pos))
      ensures c == EventAt(stream, old(pos))
    {
      c := if pos < |stream| then stream[pos] else -1;
      pos := if pos < |stream| then pos + 1 else pos;
    }

    method Putc(c: Octet)
      modifies `sent
      ensures sent == old(sent) + [c]
    {
      sent := sent + [c];
    }
  }

  // ---- frames in the stream ----

  /** Bytes that arrive before the first timeout, at most `n`. */
  function Arrived(s: seq<Event>, pos: nat, n: nat): (k: nat)
    requires pos <= |s|
    ensures k <= n && AllBytes(s, pos, k)
    ensures k < n ==> EventAt(s, pos + k) < 0
    decreases |s| - pos
  {
    if n == 0 || EventAt(s, pos) < 0 then 0 else 1 + Arrived(s, pos + 1, n - 1)
  }

  lemma {:induction false} ArrivedUpTo(s: seq<Event>, pos: nat, k: nat, n: nat)
    requires AllBytes(s, pos, k) && k <= n && (k < n ==> EventAt(s, pos + k) < 0)
    ensures Arrived(s, pos, n) == k
    decreases k
  {
    if k > 0 {
      ArrivedUpTo(s, pos + 1, k - 1, n - 1);
    }
  }

  predicate AllBytes(s: seq<Event>, from: nat, n: nat) {
    from + n <= |s| && forall i :: from <= i < from + n ==> s[i] >= 0
  }

  function Values(s: seq<Event>, from: nat, n: nat): (r: seq<Octet>)
    requires AllBytes(s, from, n)
    ensures |r| == n
  {
    seq(n, i requires 0 <= i < n => s[from + i])
  }

  /** The checksum of `n` bytes of the stream. */
  function Sum(s: seq<Event>, from: nat, n: nat): Octet
    requires AllBytes(s, from, n)
  {
    if n == 0 then 0 else (Sum(s, from, n - 1) + s[from + n - 1]) % 256
  }

  /** 132 bytes without a gap, starting at `p`. */
  predicate FrameAt(s: seq<Event>, p: nat) {
    AllBytes(s, p, BLOCK_SIZE + 4) && s[p] == SOH
  }

  function Payload(s: seq<Event>, p: nat): seq<Octet>
    requires FrameAt(s, p)
  {
    Values(s, p + 3, BLOCK_SIZE)
  }

  /** A frame for block `blk` with correct complement and checksum. */
  predicate GoodFrame(s: seq<Event>, p: nat, blk: Octet) {
    && FrameAt(s, p)
    && s[p + 1] == blk && s[p + 2] == 255 - blk
    && s[p + 131] == Sum(s, p + 3, BLOCK_SIZE)
  }

  // ---- the receiver as a function of the stream ----

  datatype End = Done | Cancelled | TimedOut

  /** The receiver between two turns of its loop: `frames` are the positions of the frames
      accepted so far, `data` is what they delivered, `sent` the bytes sent so far. */
  datatype Rx = Rx(pos: nat, blk: Octet, retries: nat, frames: seq<nat>, data: seq<Octet>, sent: seq<Octet>) {
    function Say(c: Octet): Rx {
      this.(sent := sent + [c])
    }
  }

  datatype Turned = Next(rx: Rx) | Stop(end: End, rx: Rx)

  datatype Reading = Cut(next: nat) | Whole(next: nat)

  /** What follows an SOH; both header bytes are read before either is tested. */
  function ReadFrame(s: seq<Event>, pos: nat): (r: Reading)
    requires pos <= |s|
    ensures pos <= r.next <= |s|
    ensures r.Whole? ==> AllBytes(s, pos, BLOCK_SIZE + 3) && r.next == pos + BLOCK_SIZE + 3
  {
    if EventAt(s, pos) < 0 || EventAt(s, After(s, pos)) < 0 then Cut(After(s, After(s, pos)))
    else
      var n := Arrived(s, pos + 2, BLOCK_SIZE + 1);
      if n < BLOCK_SIZE + 1 then Cut(After(s, pos + 2 + n)) else Whole(pos + 2 + n)
  }

  /** One turn of the receive loop. */
  function Turn(s: seq<Event>, rx: Rx): (r: Turned)
    requires rx.pos <= |s|
    ensures rx.pos <= r.rx.pos <= |s|
    ensures r.Next? ==> r.rx.pos > rx.pos || (rx.retries < r.rx.retries <= RETRY_MAX)
  {
    var after := rx.(pos := After(s, rx.pos));
    var c := EventAt(s, rx.pos);
    if c < 0 then
      if rx.retries + 1 > RETRY_MAX then Stop(TimedOut, after.Say(CAN).Say(CAN))
      else Next(after.(retries := rx.retries + 1).Say(NAK))
    else if c == EOT then Stop(Done, after.Say(ACK))
    else if c == CAN then Stop(Cancelled, after)
    else if c != SOH then Next(after)
    else FrameTurn(s, rx, ReadFrame(s, rx.pos + 1))
  }

  function Start(pos: nat, sent: seq<Octet>): Rx {
    Rx(pos, 1, 0, [], [], sent + [NAK])
  }

  function FrameTurn(s: seq<Event>, rx: Rx, reading: Reading): Turned {
    match reading
    case Cut(next) => Next(rx.(pos := next).Say(NAK))
    case Whole(next) =>
      if GoodFrame(s, rx.pos, rx.blk)
      then Next(Rx(next, (rx.blk + 1) % 256, 0, rx.frames + [rx.pos], rx.data + Payload(s, rx.pos), rx.sent).Say(ACK))
      else Next(rx.(pos := next, retries := rx.retries + 1).Say(NAK))
  }

  /** Turns until one stops. Refused frames never stop it, so the measure counts events first. */
  function Receive(s: seq<Event>, rx: Rx): (r: Turned)
    requires rx.pos <= |s|
    ensures r.Stop? && rx.pos <= r.rx.pos <= |s|
    decreases |s| - rx.pos, if rx.retries <= RETRY_MAX then RETRY_MAX - rx.retries else 0
  {
    match Turn(s, rx)
    case Next(next) => Receive(s, next)
    case Stop(end, last) => Stop(end, last)
  }

  lemma {:induction false} DataGrows(s: seq<Event>, rx: Rx)
    requires rx.pos <= |s|
    ensures |rx.data| <= |Receive(s, rx).rx.data| && rx.sent <= Receive(s, rx).rx.sent
    decreases |s| - rx.pos, if rx.retries <= RETRY_MAX then RETRY_MAX - rx.retries else 0
  {
    if Turn(s, rx).Next? {
      DataGrows(s, Turn(s, rx).rx);
    }
  }

  // ---- the receiver ----

  /** `b` is the payload that starts at `p`, followed by `recvCsum`. */
  predicate Block(s: seq<Event>, p: nat, b: seq<Octet>, csum: Octet, recvCsum: int) {
    && AllBytes(s, p, BLOCK_SIZE + 1) && b == Values(s, p, BLOCK_SIZE)
    && csum == Sum(s, p, BLOCK_SIZE) && recvCsum == s[p + BLOCK_SIZE]
  }

  /** The payload loop and the checksum byte. */
  method ReadBlock(uart: Uart, buf: array<Octet>) returns (ok: bool, csum: Octet, recvCsum: int)
    requires uart.Valid() && buf.Length == BLOCK_SIZE
    modifies uart`pos, buf
    ensures uart.Valid()
    ensures ok ==> Block(uart.stream, old(uart.pos), buf[..], csum, recvCsum)
    ensures ok ==> uart.pos == old(uart.pos) + BLOCK_SIZE + 1
    ensures ok ==> Arrived(uart.stream, old(uart.pos), BLOCK_SIZE + 1) == BLOCK_SIZE + 1
    ensures !ok ==> Arrived(uart.stream, old(uart.pos), BLOCK_SIZE + 1) <= BLOCK_SIZE
    ensures !ok ==> uart.pos == After(uart.stream, old(uart.pos) + Arrived(uart.stream, old(uart.pos), BLOCK_SIZE + 1))
  {
    ghost var s, p := uart.stream, uart.pos;
    csum, recvCsum := 0, -1;
    for i := 0 to BLOCK_SIZE
      invariant uart.Valid() && uart.pos == p + i && AllBytes(s, p, i)
      invariant forall j :: 0 <= j < i ==> buf[j] == s[p + j]
      invariant csum == Sum(s, p, i)
    {
      var b := uart.GetcTimeout();
      if b < 0 {
        ArrivedUpTo(s, p, i, BLOCK_SIZE + 1);
        return false, csum, -1;
      }
      buf[i] := b;
      csum := (csum + b) % 256;
    }
    assert buf[..] == Values(s, p, BLOCK_SIZE);
    recvCsum := uart.GetcTimeout();
    ok := recvCsum >= 0;
    ArrivedUpTo(s, p, if ok then BLOCK_SIZE + 1 else BLOCK_SIZE, BLOCK_SIZE + 1);
  }

  datatype Verdict = Missing | Refused | Accepted

  /** The part of the loop body between an SOH and the decision about the frame. */
  method ReadAfterSoh(uart: Uart, blkNum: Octet, buf: array<Octet>) returns (v: Verdict)
    requires uart.Valid() && uart.pos > 0 && uart.stream[uart.pos - 1] == SOH && buf.Length == BLOCK_SIZE
    modifies uart`pos, buf
    ensures uart.Valid()
    ensures uart.pos == ReadFrame(uart.stream, old(uart.pos)).next
    ensures v == Missing <==> ReadFrame(uart.stream, old(uart.pos)).Cut?
    ensures v == Accepted <==> v != Missing && GoodFrame(uart.stream, old(uart.pos) - 1, blkNum)
    ensures v == Accepted ==> buf[..] == Payload(uart.stream, old(uart.pos) - 1)
  {
    ghost var s, p := uart.stream, uart.pos - 1;
    var bn := uart.GetcTimeout();
    var bnc := uart.GetcTimeout();
    if bn < 0 || bnc < 0 {
      return Missing;
    }
    var ok, csum, recvCsum := ReadBlock(uart, buf);
    if !ok {
      return Missing;
    }
    assert FrameAt(s, p);
    v := if bn != blkNum || bnc != 255 - blkNum || recvCsum != csum then Refused else Accepted;
  }

  /** `dest` holds `data` and is otherwise as it `was`. */
  predicate Holds(dest: seq<Octet>, data: seq<Octet>, was: seq<Octet>) {
    |data| <= |was| && dest == data + was[|data|..]
  }

  method StoreBlock(dest: array<Octet>, total: nat, buf: array<Octet>, ghost data: seq<Octet>, ghost was: seq<Octet>)
    requires buf.Length == BLOCK_SIZE && buf != dest && |data| == total && total + BLOCK_SIZE <= dest.Length
    requires Holds(dest[..], data, was)
    modifies dest
    ensures Holds(dest[..], data + buf[..], was)
  {
    for i := 0 to BLOCK_SIZE
      invariant forall j :: 0 <= j < i ==> dest[total + j] == buf[j]
      invariant forall j :: 0 <= j < total || total + i <= j < dest.Length ==> dest[j] == old(dest[j])
    {
      dest[total + i] := buf[i];
    }
  }

  datatype Outcome = Again | Accept | Ended(end: End)

  /** The loop body up to the bookkeeping of an accepted frame. */
  method TakeTurn(uart: Uart, blkNum: Octet, retries: nat, buf: array<Octet>, ghost rx: Rx)
    returns (what: Outcome, retries': nat)
    requires uart.Valid() && buf.Length == BLOCK_SIZE
    requires rx.pos == uart.pos && rx.blk == blkNum && rx.retries == retries && rx.sent == uart.sent
    modifies uart`pos, uart`sent, buf
    ensures uart.Valid()
    ensures what.Accept? ==> uart.sent == old(uart.sent) && uart.pos == rx.pos + BLOCK_SIZE + 4
    ensures match what
      case Again => Turn(uart.stream, rx) == Next(rx.(pos := uart.pos, retries := retries', sent := uart.sent))
      case Accept => Turn(uart.stream, rx) ==
        Next(Rx(uart.pos, (blkNum + 1) % 256, 0, rx.frames + [rx.pos], rx.data + buf[..], uart.sent + [ACK]))
      case Ended(end) => Turn(uart.stream, rx) == Stop(end, rx.(pos := uart.pos, sent := uart.sent))
  {
    retries' := retries;
    var c := uart.GetcTimeout();
    if c < 0 {
      if retries + 1 > RETRY_MAX {
        uart.Putc(CAN);
        uart.Putc(CAN);
        return Ended(TimedOut), retries;
      }
      uart.Putc(NAK);
      return Again, retries + 1;
    }
    if c == EOT {
      uart.Putc(ACK);
      return Ended(Done), retries;
    }
    if c == CAN { return Ended(Cancelled), retries; }
    if c != SOH { return Again, retries; }
    var verdict := ReadAfterSoh(uart, blkNum, buf);
    if verdict == Accepted { return Accept, retries; }
    uart.Putc(NAK);
    what := Again;
    if verdict == Refused { retries' := retries + 1; }
  }

  method XmodemReceive(uart: Uart, dest: array<Octet>) returns (total: nat, ghost final: Rx)
    requires uart.Valid()
    requires |Receive(uart.stream, Start(uart.pos, uart.sent)).rx.data| <= dest.Length < U32
    modifies uart`pos, uart`sent, dest
    ensures var r := Receive(uart.stream, Start(old(uart.pos), old(uart.sent)));
      && final == r.rx && uart.sent == final.sent && Finished(uart.stream, r)
      && total == if r.end == Done then |final.data| else 0
    ensures Holds(dest[..], final.data, old(dest[..])) && |final.data| == 128 * |final.frames|
    ensures old(uart.sent) + [0x15] <= uart.sent
  {
    ghost var s, was, start := uart.stream, dest[..], Start(uart.pos, uart.sent);
    var blkNum: Octet, retries: nat, buf := 1, 0, new Octet[BLOCK_SIZE];
    total := 0;
    uart.Putc(NAK);
    final := start;
    ReceiveSound(s, start);
    DataGrows(s, start);
    ghost var whole := Receive(s, start);
    CarriesLength(s, whole.rx.frames, whole.rx.data);
    while true
      invariant uart.Valid() && total == |final.data|
      invariant final.pos == uart.pos && final.blk == blkNum && final.retries == retries && final.sent == uart.sent
      invariant Receive(s, final) == whole
      invariant Holds(dest[..], final.data, was)
      decreases |s| - uart.pos, if retries <= RETRY_MAX then RETRY_MAX - retries else 0
    {
      var what;
      what, retries := TakeTurn(uart, blkNum, retries, buf, final);
      ghost var next := Turn(s, final).rx;
      match what {
        case Ended(end) => return (if end == Done then total else 0), next;
        case Again =>
        case Accept =>
          retries := 0;
          DataGrows(s, next);
          StoreBlock(dest, total, buf, final.data, was);
          total := total + BLOCK_SIZE;
          blkNum := (blkNum + 1) % 256;
          uart.Putc(ACK);
      }
      final := next;
    }
  }

  // ---- soundness ----

  /** Every accepted frame is good for its number and ends before the next begins. */
  ghost predicate InOrder(s: seq<Event>, frames: seq<nat>, end: nat) {
    && (forall k :: 0 <= k < |frames| ==> GoodFrame(s, frames[k], (k + 1) % 256))
    && (forall k :: 0 <= k < |frames| ==> frames[k] + BLOCK_SIZE + 4 <= Limit(frames, k, end))
  }

  /** Where the frame after frame `k` starts, or the end. */
  function Limit(frames: seq<nat>, k: nat, end: nat): nat {
    if k + 1 < |frames| then frames[k + 1] else end
  }

  predicate FramesAt(s: seq<Event>, frames: seq<nat>) {
    frames == [] || (FrameAt(s, frames[|frames| - 1]) && FramesAt(s, frames[..|frames| - 1]))
  }

  function Payloads(s: seq<Event>, frames: seq<nat>): seq<Octet>
    requires FramesAt(s, frames)
  {
    if frames == [] then [] else Payloads(s, frames[..|frames| - 1]) + Payload(s, frames[|frames| - 1])
  }

  ghost predicate Carries(s: seq<Event>, frames: seq<nat>, data: seq<Octet>) {
    FramesAt(s, frames) && data == Payloads(s, frames)
  }

  lemma {:induction false} CarriesLength(s: seq<Event>, frames: seq<nat>, data: seq<Octet>)
    requires Carries(s, frames, data)
    ensures |data| == BLOCK_SIZE * |frames|
  {
    if frames != [] {
      CarriesLength(s, frames[..|frames| - 1], Payloads(s, frames[..|frames| - 1]));
    }
  }

  ghost predicate Sound(s: seq<Event>, rx: Rx) {
    && rx.pos <= |s| && rx.blk == (|rx.frames| + 1) % 256
    && InOrder(s, rx.frames, rx.pos) && Carries(s, rx.frames, rx.data)
  }

  lemma CarriesSnoc(s: seq<Event>, frames: seq<nat>, data: seq<Octet>, p: nat)
    requires Carries(s, frames, data) && FrameAt(s, p)
    ensures Carries(s, frames + [p], data + Payload(s, p))
  {
    assert (frames + [p])[..|frames|] == frames;
  }

  lemma InOrderSnoc(s: seq<Event>, frames: seq<nat>, p: nat)
    requires InOrder(s, frames, p) && GoodFrame(s, p, (|frames| + 1) % 256)
    ensures InOrder(s, frames + [p], p + BLOCK_SIZE + 4)
  {
    var now := frames + [p];
    forall k | 0 <= k < |now|
      ensures GoodFrame(s, now[k], (k + 1) % 256) && now[k] + BLOCK_SIZE + 4 <= Limit(now, k, p + BLOCK_SIZE + 4)
    {
      if k < |frames| {
        assert now[k] == frames[k] && Limit(now, k, p + BLOCK_SIZE + 4) == Limit(frames, k, p);
      }
    }
  }

  ghost predicate Unmoved(rx: Rx, next: Rx) {
    next.frames == rx.frames && next.data == rx.data && next.blk == rx.blk
  }

  ghost predicate Accepts(s: seq<Event>, rx: Rx, next: Rx) {
    && GoodFrame(s, rx.pos, rx.blk)
    && next.pos == rx.pos + BLOCK_SIZE + 4 && next.blk == (rx.blk + 1) % 256
    && next.frames == rx.frames + [rx.pos] && next.data == rx.data + Payload(s, rx.pos)
  }

  lemma TurnShape(s: seq<Event>, rx: Rx)
    requires rx.pos <= |s|
    ensures var t := Turn(s, rx);
      && (Unmoved(rx, t.rx) || (t.Next? && Accepts(s, rx, t.rx)))
      && (t.Stop? && t.end == Done ==> rx.pos < |s| && t.rx.pos == rx.pos + 1 && s[rx.pos] == EOT)
  {
  }

  lemma AcceptsSound(s: seq<Event>, rx: Rx, next: Rx)
    requires Sound(s, rx) && Accepts(s, rx, next)
    ensures Sound(s, next)
  {
    InOrderSnoc(s, rx.frames, rx.pos);
    CarriesSnoc(s, rx.frames, rx.data, rx.pos);
    NextNumber(|rx.frames| + 1);
  }

  lemma NextNumber(n: nat)
    ensures (n % 256 + 1) % 256 == (n + 1) % 256
  {
  }

  lemma UnmovedSound(s: seq<Event>, rx: Rx, next: Rx)
    requires Sound(s, rx) && Unmoved(rx, next) && rx.pos <= next.pos <= |s|
    ensures Sound(s, next)
  {
    InOrderLater(s, rx.frames, rx.pos, next.pos);
  }

  /** On a normal end every frame lies before the EOT that ended the transfer. */
  ghost predicate Finished(s: seq<Event>, r: Turned)
    requires r.Stop?
  {
    && Sound(s, r.rx)
    && (r.end == Done ==> r.rx.pos > 0 && s[r.rx.pos - 1] == EOT && InOrder(s, r.rx.frames, r.rx.pos - 1))
  }

  lemma TurnSound(s: seq<Event>, rx: Rx)
    requires Sound(s, rx)
    ensures Sound(s, Turn(s, rx).rx) && (Turn(s, rx).Stop? ==> Finished(s, Turn(s, rx)))
  {
    TurnShape(s, rx);
    var next := Turn(s, rx).rx;
    if Unmoved(rx, next) {
      UnmovedSound(s, rx, next);
    } else {
      AcceptsSound(s, rx, next);
    }
  }

  /** Whatever arrives, on a normal end the destination holds the payloads of good frames 1, 2, ...
      (mod 256) that stand in the stream in this order, each without a gap, before an EOT. */
  lemma {:induction false} ReceiveSound(s: seq<Event>, rx: Rx)
    requires Sound(s, rx)
    ensures Finished(s, Receive(s, rx))
    decreases |s| - rx.pos, if rx.retries <= RETRY_MAX then RETRY_MAX - rx.retries else 0
  {
    TurnSound(s, rx);
    if Turn(s, rx).Next? {
      ReceiveSound(s, Turn(s, rx).rx);
    }
  }

  lemma InOrderLater(s: seq<Event>, frames: seq<nat>, end: nat, later: nat)
    requires InOrder(s, frames, end) && end <= later
    ensures InOrder(s, frames, later)
  {
    assert forall k :: 0 <= k < |frames| ==> Limit(frames, k, end) <= Limit(frames, k, later);
  }

  function Acks(sent: seq<Octet>): int {
    multiset(sent)[ACK]
  }

  lemma TurnAcks(s: seq<Event>, rx: Rx)
    requires rx.pos <= |s|
    ensures var t := Turn(s, rx);
      Acks(t.rx.sent) - |t.rx.frames| == Acks(rx.sent) - |rx.frames| + (if t.Stop? && t.end == Done then 1 else 0)
  {
  }

  /** The sender sees one ACK for every delivered frame and one more for a completed transfer. */
  lemma {:induction false} ReceiveAcks(s: seq<Event>, rx: Rx)
    requires rx.pos <= |s|
    ensures var r := Receive(s, rx);
      Acks(r.rx.sent) - |r.rx.frames| == Acks(rx.sent) - |rx.frames| + (if r.end == Done then 1 else 0)
    decreases |s| - rx.pos, if rx.retries <= RETRY_MAX then RETRY_MAX - rx.retries else 0
  {
    TurnAcks(s, rx);
    if Turn(s, rx).Next? {
      ReceiveAcks(s, Turn(s, rx).rx);
    }
  }

  // ---- completeness ----

  /** What can be on the line when the receiver waits for a frame. */
  datatype Item =
    | Frame(bn: Octet, bnc: Octet, payload: seq<Octet>, sum: Octet)
    | Noise(value: Octet)
    | Quiet
    | CutHead(first: Event, second: Event)
    | CutBody(bn: Octet, bnc: Octet, part: seq<Octet>)
  {
    predicate Possible() {
      match this
      case Frame(_, _, payload, _) => |payload| == 128
      case Noise(b) => b != 0x01 && b != 0x04 && b != 0x18
      case Quiet => true
      case CutHead(first, second) => first < 0 || second < 0
      case CutBody(_, _, part) => |part| <= 128
    }

    predicate Good(blk: Octet) {
      Frame? && bn == blk && bnc == 255 - blk && sum == Checksum(payload, |payload|)
    }
  }

  function Checksum(data: seq<Octet>, n: nat): Octet
    requires n <= |data|
  {
    if n == 0 then 0 else (Checksum(data, n - 1) + data[n - 1]) % 256
  }

  lemma {:induction false} SumIsChecksum(s: seq<Event>, from: nat, n: nat, data: seq<Octet>)
    requires AllBytes(s, from, n) && n <= |data| && forall i :: from <= i < from + n ==> s[i] == data[i - from]
    ensures Sum(s, from, n) == Checksum(data, n)
  {
    if n > 0 {
      SumIsChecksum(s, from, n - 1, data);
    }
  }

  function Bytes(data: seq<Octet>): (r: seq<Event>)
    ensures |r| == |data|
  {
    seq(|data|, i requires 0 <= i < |data| => data[i])
  }

  function Events(item: Item): seq<Event> {
    match item
    case Frame(bn, bnc, payload, sum) => [0x01, bn, bnc] + Bytes(payload) + [sum]
    case Noise(b) => [b]
    case Quiet => [-1]
    case CutHead(first, second) => [0x01, first, second]
    case CutBody(bn, bnc, part) => [0x01, bn, bnc] + Bytes(part) + [-1]
  }

  function Length(item: Item): (n: nat)
    ensures n == |Events(item)|
  {
    match item
    case Frame(_, _, payload, _) => |payload| + 4
    case CutHead(_, _) => 3
    case CutBody(_, _, part) => |part| + 4
    case _ => 1
  }

  /** The next events, with silence after the end of the stream. */
  predicate Upcoming(s: seq<Event>, pos: nat, evs: seq<Event>)
    decreases |evs|
  {
    evs == [] || (EventAt(s, pos) == evs[0] && Upcoming(s, After(s, pos), evs[1..]))
  }

  lemma {:induction false} UpcomingAt(s: seq<Event>, pos: nat, evs: seq<Event>)
    requires pos <= |s|
    ensures Upcoming(s, pos, evs) <==> forall i :: 0 <= i < |evs| ==> EventAt(s, pos + i) == evs[i]
    decreases |evs|
  {
    if evs != [] {
      var rest := evs[1..];
      UpcomingAt(s, After(s, pos), rest);
      if Upcoming(s, pos, evs) {
        forall i | 0 <= i < |evs| ensures EventAt(s, pos + i) == evs[i] {
          if i > 0 {
            assert EventAt(s, After(s, pos) + (i - 1)) == rest[i - 1];
          }
        }
      }
      if forall i :: 0 <= i < |evs| ==> EventAt(s, pos + i) == evs[i] {
        assert EventAt(s, pos + 0) == evs[0];
        forall i | 0 <= i < |rest| ensures EventAt(s, After(s, pos) + i) == rest[i] {
          assert EventAt(s, pos + (i + 1)) == evs[i + 1];
        }
      }
    }
  }

  /** The position `k` events on; it stays at the end of the stream. */
  function Advance(s: seq<Event>, pos: nat, k: nat): nat {
    if pos + k <= |s| then pos + k else |s|
  }

  /** From `pos` on, the line shows the items one after the other and then what ends the transfer.
      A timeout that ends it is the last item itself. */
  predicate Line(s: seq<Event>, pos: nat, items: seq<Item>, end: End)
    decreases |items|
  {
    if items == [] then (end == Done ==> EventAt(s, pos) == 0x04) && (end == Cancelled ==> EventAt(s, pos) == 0x18)
    else
      && items[0].Possible() && Upcoming(s, pos, Events(items[0]))
      && Line(s, Advance(s, pos, Length(items[0])), items[1..], end)
  }

  datatype Heard = Heard(blk: Octet, retries: nat, data: seq<Octet>) | GaveUp(data: seq<Octet>)

  /** What the receiver should make of such a line. */
  function Hear(items: seq<Item>, blk: Octet, retries: nat, data: seq<Octet>): Heard {
    if items == [] then Heard(blk, retries, data)
    else if items[0].Good(blk) then Hear(items[1..], (blk + 1) % 256, 0, data + items[0].payload)
    else if items[0].Frame? then Hear(items[1..], blk, retries + 1, data)
    else if items[0].Quiet? then
      if retries >= 20 then GaveUp(data) else Hear(items[1..], blk, retries + 1, data)
    else Hear(items[1..], blk, retries, data)
  }

  /** What the sender should see for one item: ACK for a good frame, NAK for a refused or cut frame
      and for a silence, nothing for noise, and CAN CAN when the receiver gives up. */
  function Reply(item: Item, blk: Octet, retries: nat): seq<Octet> {
    match item
    case Frame(_, _, _, _) => if item.Good(blk) then [0x06] else [0x15]
    case Noise(_) => []
    case Quiet => if retries >= 20 then [0x18, 0x18] else [0x15]
    case CutHead(_, _) => [0x15]
    case CutBody(_, _, _) => [0x15]
  }

  /** A good frame makes the next block number due. */
  function NextBlk(item: Item, blk: Octet): Octet {
    if item.Good(blk) then (blk + 1) % 256 else blk
  }

  /** Refused frames and silences count, and a good frame forgets them. */
  function NextRetries(item: Item, blk: Octet, retries: nat): nat {
    if item.Good(blk) then 0 else if item.Frame? || item.Quiet? then retries + 1 else retries
  }

  /** All replies after the first NAK, up to the end of the items. */
  function Replies(items: seq<Item>, blk: Octet, retries: nat): seq<Octet> {
    if items == [] then []
    else if items[0].Quiet? && retries >= 20 then Reply(items[0], blk, retries)
    else
      Reply(items[0], blk, retries)
      + Replies(items[1..], NextBlk(items[0], blk), NextRetries(items[0], blk, retries))
  }

  lemma FrameRead(s: seq<Event>, p: nat)
    requires FrameAt(s, p)
    ensures ReadFrame(s, p + 1) == Whole(p + BLOCK_SIZE + 4)
  {
    ArrivedUpTo(s, p + 3, BLOCK_SIZE + 1, BLOCK_SIZE + 1);
  }

  lemma ItemIsFrame(s: seq<Event>, p: nat, item: Item)
    requires item.Frame? && item.Possible() && p <= |s| && Upcoming(s, p, Events(item))
    ensures FrameAt(s, p) && Payload(s, p) == item.payload
    ensures s[p + 1] == item.bn && s[p + 2] == item.bnc && s[p + 131] == item.sum
    ensures Sum(s, p + 3, BLOCK_SIZE) == Checksum(item.payload, |item.payload|)
  {
    FrameBytes(s, p, item);
    assert AllBytes(s, p, BLOCK_SIZE + 4) by {
      forall i | p <= i < p + BLOCK_SIZE + 4 ensures s[i] >= 0 {
        assert i < p + 3 ==> i == p || i == p + 1 || i == p + 2;
      }
    }
    assert Payload(s, p) == item.payload;
    SumIsChecksum(s, p + 3, BLOCK_SIZE, item.payload);
  }

  lemma FrameItemTurn(s: seq<Event>, rx: Rx, item: Item)
    requires item.Frame? && item.Possible() && rx.pos <= |s| && Upcoming(s, rx.pos, Events(item))
    ensures rx.pos + BLOCK_SIZE + 4 <= |s| && ReadFrame(s, rx.pos + 1) == Whole(rx.pos + BLOCK_SIZE + 4)
    ensures GoodFrame(s, rx.pos, rx.blk) <==> item.Good(rx.blk)
    ensures FrameAt(s, rx.pos) && Payload(s, rx.pos) == item.payload
  {
    ItemIsFrame(s, rx.pos, item);
    FrameRead(s, rx.pos);
  }

  lemma FrameBytes(s: seq<Event>, p: nat, item: Item)
    requires item.Frame? && item.Possible() && p <= |s| && Upcoming(s, p, Events(item))
    ensures p + BLOCK_SIZE + 4 <= |s| && |Events(item)| == BLOCK_SIZE + 4
    ensures s[p] == SOH && s[p + 1] == item.bn && s[p + 2] == item.bnc && s[p + 131] == item.sum
    ensures forall i :: p + 3 <= i < p + 131 ==> s[i] == item.payload[i - p - 3]
  {
    var evs := Events(item);
    UpcomingAt(s, p, evs);
    assert EventAt(s, p + 131) == evs[131] && EventAt(s, p + 0) == evs[0];
    assert EventAt(s, p + 1) == evs[1] && EventAt(s, p + 2) == evs[2];
    forall i | p + 3 <= i < p + 131 ensures s[i] == item.payload[i - p - 3] {
      assert EventAt(s, p + (i - p)) == evs[i - p];
    }
  }

  lemma CutBodyTurn(s: seq<Event>, pos: nat, item: Item)
    requires item.CutBody? && item.Possible() && pos <= |s| && Upcoming(s, pos, Events(item))
    ensures EventAt(s, pos) == SOH && ReadFrame(s, pos + 1) == Cut(Advance(s, pos, Length(item)))
  {
    var evs, n := Events(item), |item.part|;
    UpcomingAt(s, pos, evs);
    assert EventAt(s, pos + 0) == evs[0] && EventAt(s, pos + 1) == evs[1] && EventAt(s, pos + 2) == evs[2];
    assert EventAt(s, pos + (3 + n)) == evs[3 + n];
    if n > 0 {
      assert EventAt(s, pos + (2 + n)) == evs[2 + n];
    }
    forall i | pos + 3 <= i < pos + 3 + n ensures s[i] >= 0 {
      assert EventAt(s, pos + (i - pos)) == evs[i - pos];
    }
    ArrivedUpTo(s, pos + 3, n, BLOCK_SIZE + 1);
  }

  lemma CutHeadTurn(s: seq<Event>, pos: nat, item: Item)
    requires item.CutHead? && item.Possible() && pos <= |s| && Upcoming(s, pos, Events(item))
    ensures EventAt(s, pos) == SOH && ReadFrame(s, pos + 1) == Cut(Advance(s, pos, Length(item)))
  {
    var evs := Events(item);
    UpcomingAt(s, pos, evs);
    assert EventAt(s, pos + 0) == evs[0] && EventAt(s, pos + 1) == evs[1] && EventAt(s, pos + 2) == evs[2];
  }

  function ItemOutcome(s: seq<Event>, rx: Rx, item: Item): Turned {
    var after := rx.(pos := Advance(s, rx.pos, Length(item)));
    match item
    case Frame(_, _, _, _) =>
      if item.Good(rx.blk)
      then Next(Rx(after.pos, (rx.blk + 1) % 256, 0, rx.frames + [rx.pos], rx.data + item.payload, rx.sent).Say(ACK))
      else Next(after.(retries := rx.retries + 1).Say(NAK))
    case Noise(_) => Next(after)
    case Quiet =>
      if rx.retries + 1 > RETRY_MAX then Stop(TimedOut, after.Say(CAN).Say(CAN))
      else Next(after.(retries := rx.retries + 1).Say(NAK))
    case CutHead(_, _) => Next(after.Say(NAK))
    case CutBody(_, _, _) => Next(after.Say(NAK))
  }

  /** One item is exactly one turn. */
  lemma {:induction false} ItemTurn(s: seq<Event>, rx: Rx, item: Item)
    requires rx.pos <= |s| && item.Possible() && Upcoming(s, rx.pos, Events(item))
    ensures Turn(s, rx) == ItemOutcome(s, rx, item)
  {
    match item {
      case Frame(_, _, _, _) => FrameItemTurn(s, rx, item);
      case CutBody(_, _, _) => CutBodyTurn(s, rx.pos, item);
      case CutHead(_, _) => CutHeadTurn(s, rx.pos, item);
      case _ =>
    }
  }

  /** The result is what should have been heard, and the replies are on the line. */
  predicate Meets(r: Turned, h: Heard, end: End, sent: seq<Octet>) {
    match h
    case GaveUp(all) => r.Stop? && r.end == TimedOut && r.rx.data == all && r.rx.sent == sent
    case Heard(_, _, all) => end != TimedOut ==>
      r.Stop? && r.end == end && r.rx.data == all && r.rx.sent == sent + (if end == Done then [0x06] else [])
  }

  /** What the induction over a line needs to know of the receiver. */
  ghost predicate Follows(s: seq<Event>, recv: Rx -> Turned, rx: Rx, item: Item) {
    match ItemOutcome(s, rx, item)
    case Next(next) => recv(rx) == recv(next)
    case Stop(end, last) => recv(rx) == Stop(end, last)
  }

  ghost predicate Obeys(s: seq<Event>, recv: Rx -> Turned) {
    && (forall rx: Rx, item: Item {:trigger Follows(s, recv, rx, item)} ::
      rx.pos <= |s| && item.Possible() && Upcoming(s, rx.pos, Events(item)) ==> Follows(s, recv, rx, item))
    && (forall rx: Rx, end: End ::
      rx.pos <= |s| && Line(s, rx.pos, [], end) ==> Meets(recv(rx), Heard(rx.blk, rx.retries, rx.data), end, rx.sent))
  }

  lemma ItemReply(s: seq<Event>, rx: Rx, item: Item)
    ensures var t := ItemOutcome(s, rx, item);
      && t.rx.sent == rx.sent + Reply(item, rx.blk, rx.retries)
      && (t.Stop? <==> item.Quiet? && rx.retries >= 20)
      && (t.Next? ==> t.rx.blk == NextBlk(item, rx.blk) && t.rx.retries == NextRetries(item, rx.blk, rx.retries))
  {
  }

  lemma RepliesFirst(items: seq<Item>, blk: Octet, retries: nat, sent: seq<Octet>)
    requires items != []
    ensures sent + Replies(items, blk, retries) == sent + Reply(items[0], blk, retries)
      + if items[0].Quiet? && retries >= 20 then []
        else Replies(items[1..], NextBlk(items[0], blk), NextRetries(items[0], blk, retries))
  {
  }

  lemma {:induction false} LineHeard(s: seq<Event>, recv: Rx -> Turned, rx: Rx, items: seq<Item>, end: End)
    requires Obeys(s, recv) && rx.pos <= |s| && Line(s, rx.pos, items, end)
    ensures Meets(recv(rx), Hear(items, rx.blk, rx.retries, rx.data), end,
      rx.sent + Replies(items, rx.blk, rx.retries))
    decreases |items|
  {
    if items != [] {
      assert Follows(s, recv, rx, items[0]);
      ItemReply(s, rx, items[0]);
      RepliesFirst(items, rx.blk, rx.retries, rx.sent);
      if ItemOutcome(s, rx, items[0]).Next? {
        LineHeard(s, recv, ItemOutcome(s, rx, items[0]).rx, items[1..], end);
      }
    } else {
      assert Line(s, rx.pos, [], end) && rx.sent + [] == rx.sent;
    }
  }

  /** The receiver takes every line, however garbled, for what it should: good frames are
      delivered, EOT and CAN end the transfer as they should, and only a timeout after `RETRY_MAX`
      fruitless attempts ends it before them. */
  lemma {:induction false} ReceiveComplete(s: seq<Event>, rx: Rx, items: seq<Item>, end: End)
    requires rx.pos <= |s| && Line(s, rx.pos, items, end)
    ensures Meets(Receive(s, rx), Hear(items, rx.blk, rx.retries, rx.data), end,
      rx.sent + Replies(items, rx.blk, rx.retries))
  {
    var recv := (rx: Rx) => if rx.pos <= |s| then Receive(s, rx) else Stop(Done, rx);
    forall rx: Rx, item: Item | rx.pos <= |s| && item.Possible() && Upcoming(s, rx.pos, Events(item))
      ensures Follows(s, recv, rx, item)
    {
      ItemTurn(s, rx, item);
    }
    LineHeard(s, recv, rx, items, end);
  }

  // ---- every stream is such a line ----

  lemma CutHeadSeen(s: seq<Event>, pos: nat) returns (item: Item)
    requires pos < |s| && s[pos] == SOH && (EventAt(s, pos + 1) < 0 || EventAt(s, After(s, pos + 1)) < 0)
    ensures item.Possible() && Upcoming(s, pos, Events(item))
  {
    item := CutHead(EventAt(s, pos + 1), EventAt(s, After(s, pos + 1)));
    UpcomingAt(s, pos, Events(item));
  }

  lemma CutBodySeen(s: seq<Event>, pos: nat, n: nat) returns (item: Item)
    requires AllBytes(s, pos, n + 3) && s[pos] == SOH && n <= BLOCK_SIZE && EventAt(s, pos + 3 + n) < 0
    ensures item.Possible() && Upcoming(s, pos, Events(item))
  {
    item := CutBody(s[pos + 1], s[pos + 2], Values(s, pos + 3, n));
    var evs := Events(item);
    forall i | 0 <= i < |evs| ensures EventAt(s, pos + i) == evs[i] {
    }
    UpcomingAt(s, pos, evs);
  }

  lemma FrameSeen(s: seq<Event>, pos: nat) returns (item: Item)
    requires FrameAt(s, pos)
    ensures item.Possible() && Upcoming(s, pos, Events(item))
  {
    item := Frame(s[pos + 1], s[pos + 2], Payload(s, pos), s[pos + 131]);
    var evs := Events(item);
    forall i | 0 <= i < |evs| ensures EventAt(s, pos + i) == evs[i] {
    }
    UpcomingAt(s, pos, evs);
  }

  /** Unless a transfer ends here, one of the items is on the line. */
  lemma ItemSeen(s: seq<Event>, pos: nat) returns (item: Item)
    requires pos <= |s| && EventAt(s, pos) != EOT && EventAt(s, pos) != CAN
    ensures item.Possible() && Upcoming(s, pos, Events(item))
  {
    var c := EventAt(s, pos);
    if c < 0 {
      item := Quiet;
    } else if c != SOH {
      item := Noise(c);
    } else if EventAt(s, pos + 1) < 0 || EventAt(s, After(s, pos + 1)) < 0 {
      item := CutHeadSeen(s, pos);
    } else {
      var n := Arrived(s, pos + 3, BLOCK_SIZE + 1);
      if n <= BLOCK_SIZE {
        item := CutBodySeen(s, pos, n);
      } else {
        item := FrameSeen(s, pos);
      }
    }
  }

  /** Every stream, from any state of the receiver, is a line that ends the way the transfer ends. */
  lemma {:induction false} EveryStream(s: seq<Event>, rx: Rx) returns (items: seq<Item>)
    requires rx.pos <= |s|
    ensures Line(s, rx.pos, items, Receive(s, rx).end)
    ensures Hear(items, rx.blk, rx.retries, rx.data).GaveUp? <==> Receive(s, rx).end == TimedOut
    decreases |s| - rx.pos, if rx.retries <= RETRY_MAX then RETRY_MAX - rx.retries else 0
  {
    if EventAt(s, rx.pos) == EOT || EventAt(s, rx.pos) == CAN {
      items := [];
    } else {
      var item := ItemSeen(s, rx.pos);
      ItemTurn(s, rx, item);
      var rest := [];
      if Turn(s, rx).Next? {
        rest := EveryStream(s, Turn(s, rx).rx);
      }
      items := [item] + rest;
      assert items[1..] == rest;
    }
  }

  /** What the receiver does, for every stream and from every state. */
  lemma ReceiveExactly(s: seq<Event>, rx: Rx) returns (items: seq<Item>)
    requires rx.pos <= |s|
    ensures Line(s, rx.pos, items, Receive(s, rx).end)
    ensures var r, replies := Receive(s, rx), rx.sent + Replies(items, rx.blk, rx.retries);
      match Hear(items, rx.blk, rx.retries, rx.data)
      case GaveUp(all) => r.end == TimedOut && r.rx.data == all && r.rx.sent == replies
      case Heard(_, _, all) =>
        r.end != TimedOut && r.rx.data == all && r.rx.sent == replies + (if r.end == Done then [0x06] else [])
  {
    items := EveryStream(s, rx);
    ReceiveComplete(s, rx, items, Receive(s, rx).end);
  }

  /** The same for a whole transfer: the receiver speaks first, expects block 1 and has used none of
      its 20 retries. */
  lemma TransferExactly(s: seq<Event>, pos: nat, sent: seq<Octet>) returns (items: seq<Item>)
    requires pos <= |s|
    ensures Line(s, pos, items, Receive(s, Start(pos, sent)).end)
    ensures var r, replies := Receive(s, Start(pos, sent)), sent + [0x15] + Replies(items, 1, 0);
      match Hear(items, 1, 0, [])
      case GaveUp(all) => r.end == TimedOut && r.rx.data == all && r.rx.sent == replies
      case Heard(_, _, all) =>
        r.end != TimedOut && r.rx.data == all && r.rx.sent == replies + (if r.end == Done then [0x06] else [])
  {
    items := ReceiveExactly(s, Start(pos, sent));
  }

  // ---- a sender ----

  function FrameOf(block: seq<Octet>, blk: Octet): Item {
    Frame(blk, 255 - blk, block, Checksum(block, |block|))
  }

  function Send(blocks: seq<seq<Octet>>, blk: Octet): seq<Item>
    decreases |blocks|
  {
    if |blocks| == 0 then []
    else [FrameOf(blocks[0], blk)] + Send(blocks[1..], (blk + 1) % 256)
  }

  function Concat(blocks: seq<seq<Octet>>): seq<Octet> {
    if |blocks| == 0 then [] else blocks[0] + Concat(blocks[1..])
  }

  predicate AllRefused(bad: seq<Item>, blk: Octet) {
    bad == [] || (bad[0].Frame? && !bad[0].Good(blk) && AllRefused(bad[1..], blk))
  }

  lemma {:induction false} RefusalsCount(bad: seq<Item>, rest: seq<Item>, blk: Octet, retries: nat, data: seq<Octet>)
    requires AllRefused(bad, blk)
    ensures Hear(bad + rest, blk, retries, data) == Hear(rest, blk, retries + |bad|, data)
  {
    if bad == [] {
      assert bad + rest == rest;
    } else {
      assert (bad + rest)[1..] == bad[1..] + rest;
      RefusalsCount(bad[1..], rest, blk, retries + 1, data);
    }
  }

  /** Refused frames are never capped: after any number of them the receiver still takes the good
      ones. They do use up the retries, so after `RETRY_MAX` of them a single silence ends it. */
  lemma RefusalsNeverEnd(bad: seq<Item>, blocks: seq<seq<Octet>>, blk: Octet, data: seq<Octet>)
    requires AllRefused(bad, blk)
    ensures var h := Hear(bad + Send(blocks, blk), blk, 0, data); h.Heard? && h.data == data + Concat(blocks)
    ensures Hear(bad + [Quiet] + Send(blocks, blk), blk, 0, data).GaveUp? <==> |bad| >= RETRY_MAX
  {
    RefusalsCount(bad, Send(blocks, blk), blk, 0, data);
    HearSend(blocks, blk, |bad|, data);
    assert bad + [Quiet] + Send(blocks, blk) == bad + ([Quiet] + Send(blocks, blk));
    RefusalsCount(bad, [Quiet] + Send(blocks, blk), blk, 0, data);
    assert ([Quiet] + Send(blocks, blk))[1..] == Send(blocks, blk);
    HearSend(blocks, blk, |bad| + 1, data);
  }

  lemma {:induction false} HearSend(blocks: seq<seq<Octet>>, blk: Octet, retries: nat, data: seq<Octet>)
    ensures var h := Hear(Send(blocks, blk), blk, retries, data); h.Heard? && h.data == data + Concat(blocks)
  {
    if |blocks| > 0 {
      var items := Send(blocks, blk);
      assert items[1..] == Send(blocks[1..], (blk + 1) % 256);
      HearSend(blocks[1..], (blk + 1) % 256, 0, data + blocks[0]);
    }
  }

  function Total(data: seq<Octet>, n: nat): nat
    requires n <= |data|
  {
    if n == 0 then 0 else Total(data, n - 1) + data[n - 1]
  }

  lemma AddModulo(a: nat, b: nat)
    ensures (a % 256 + b) % 256 == (a + b) % 256
  {
  }

  lemma {:induction false} ChecksumTotal(data: seq<Octet>, n: nat)
    requires n <= |data|
    ensures Checksum(data, n) == Total(data, n) % 256
  {
    if n > 0 {
      ChecksumTotal(data, n - 1);
      AddModulo(Total(data, n - 1), data[n - 1]);
    }
  }

  /** A sender's bytes: SOH, block number and its complement, 128 bytes, the low byte of their sum;
      EOT at the end. */
  function Wire(blocks: seq<seq<Octet>>, k: nat): seq<Event>
    decreases |blocks|
  {
    if |blocks| == 0 then [0x04]
    else
      [0x01, k % 256, 255 - k % 256] + Bytes(blocks[0]) + [Total(blocks[0], |blocks[0]|) % 256]
      + Wire(blocks[1..], k + 1)
  }

  predicate AllFull(blocks: seq<seq<Octet>>) {
    forall i :: 0 <= i < |blocks| ==> |blocks[i]| == 128
  }

  predicate Sent(s: seq<Event>, pos: nat, evs: seq<Event>) {
    pos + |evs| <= |s| && s[pos..pos + |evs|] == evs
  }

  lemma SentSplit(s: seq<Event>, pos: nat, a: seq<Event>, b: seq<Event>)
    requires Sent(s, pos, a + b)
    ensures Sent(s, pos, a) && Sent(s, pos + |a|, b)
  {
    var evs := a + b;
    assert s[pos..pos + |a|] == evs[..|a|] == a;
    assert s[pos + |a|..pos + |evs|] == evs[|a|..] == b;
  }

  lemma SentUpcoming(s: seq<Event>, pos: nat, evs: seq<Event>)
    requires Sent(s, pos, evs)
    ensures Upcoming(s, pos, evs)
  {
    forall i | 0 <= i < |evs| ensures EventAt(s, pos + i) == evs[i] {
      assert s[pos..pos + |evs|][i] == s[pos + i];
    }
    UpcomingAt(s, pos, evs);
  }

  lemma WireFirst(s: seq<Event>, pos: nat, blocks: seq<seq<Octet>>, k: nat, item: Item)
    requires |blocks| > 0 && |blocks[0]| == 128 && Sent(s, pos, Wire(blocks, k)) && item == FrameOf(blocks[0], k % 256)
    ensures Upcoming(s, pos, Events(item)) && Length(item) == 132 && item.Possible()
    ensures Sent(s, pos + 132, Wire(blocks[1..], k + 1))
  {
    ChecksumTotal(blocks[0], 128);
    assert Wire(blocks, k) == Events(item) + Wire(blocks[1..], k + 1);
    SentSplit(s, pos, Events(item), Wire(blocks[1..], k + 1));
    SentUpcoming(s, pos, Events(item));
  }

  lemma {:induction false} WireLine(s: seq<Event>, pos: nat, blocks: seq<seq<Octet>>, k: nat, blk: Octet)
    requires AllFull(blocks) && Sent(s, pos, Wire(blocks, k)) && blk == k % 256
    ensures Line(s, pos, Send(blocks, blk), Done)
    decreases |blocks|
  {
    var items := Send(blocks, blk);
    if |blocks| == 0 {
      assert s[pos..pos + 1][0] == 0x04;
    } else {
      WireFirst(s, pos, blocks, k, items[0]);
      NextNumber(k);
      WireLine(s, pos + 132, blocks[1..], k + 1, (blk + 1) % 256);
      assert items[1..] == Send(blocks[1..], (blk + 1) % 256);
    }
  }

  function Repeated(c: Octet, n: nat): (r: seq<Octet>)
    ensures |r| == n && forall i :: 0 <= i < n ==> r[i] == c
  {
    seq(n, _ => c)
  }

  lemma {:induction false} SendAcked(blocks: seq<seq<Octet>>, blk: Octet, retries: nat)
    ensures Replies(Send(blocks, blk), blk, retries) == Repeated(0x06, |blocks|)
    decreases |blocks|
  {
    if |blocks| > 0 {
      var items := Send(blocks, blk);
      assert items[1..] == Send(blocks[1..], (blk + 1) % 256);
      SendAcked(blocks[1..], (blk + 1) % 256, 0);
      assert Repeated(0x06, |blocks|) == [0x06] + Repeated(0x06, |blocks| - 1);
    }
  }

  /** Round trip, for every number of blocks, past the wrap of the block number. */
  lemma {:induction false} SendReceive(blocks: seq<seq<Octet>>, s: seq<Event>, rx: Rx)
    requires rx.pos <= |s| && rx.data == [] && Line(s, rx.pos, Send(blocks, rx.blk), Done)
    ensures Receive(s, rx).end == Done && Receive(s, rx).rx.data == Concat(blocks)
    ensures Receive(s, rx).rx.sent == rx.sent + Repeated(0x06, |blocks|) + [0x06]
  {
    HearSend(blocks, rx.blk, rx.retries, []);
    SendAcked(blocks, rx.blk, rx.retries);
    ReceiveComplete(s, rx, Send(blocks, rx.blk), Done);
  }

  /** Byte for byte: a sender's stream is received as its blocks, and the sender sees a NAK, an ACK
      for each block and an ACK for the EOT. */
  lemma {:induction false} WireReceived(blocks: seq<seq<Octet>>, s: seq<Event>, pos: nat, sent: seq<Octet>)
    requires AllFull(blocks) && Sent(s, pos, Wire(blocks, 1))
    ensures var r := Receive(s, Start(pos, sent));
      r.end == Done && r.rx.data == Concat(blocks) && r.rx.sent == sent + [0x15] + Repeated(0x06, |blocks|) + [0x06]
  {
    var rx := Start(pos, sent);
    WireLine(s, rx.pos, blocks, 1, rx.blk);
    SendReceive(blocks, s, rx);
  }
}
