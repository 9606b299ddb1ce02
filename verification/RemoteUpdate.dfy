/**
 The bus wrapper around the remote-update block: a clocked state machine that serialises a
 29-bit word into the block, or out of it, on command.
 */
module RemoteUpdate {
  import opened Words

  type Field = w: Word | |w| == 29 witness seq(29, _ => false)

  datatype State = Idle | LoadPre | ShiftIn | LoadPost | Reconfig | CapPre | ShiftOut | TimerRst | Done

  /** The trigger bits, one for each operation. */
  datatype Trig = Trig(shiftIn: bool, shiftOut: bool, reconfig: bool, rsttimer: bool) {
    predicate Any() {
      shiftIn || shiftOut || reconfig || rsttimer
    }
  }

  const NO_TRIG := Trig(false, false, false, false)

  /** The registered outputs to the block. */
  datatype Pins = Pins(shiftnld: bool, captnupdt: bool, regin: bool, rsttimer: bool, rconfig: bool)

  const LOW := Pins(false, false, false, false, false)

  /** The registers of the first clocked block. */
  datatype Fsm = Fsm(state: State, bitCnt: nat, shiftBuf: Field, captureReg: Field, doneSticky: bool, pins: Pins)

  /** The registers of the second clocked block. */
  datatype Bus = Bus(ack: bool, datR: Word32, dataReg: Field, trig: Trig, statusReadReq: bool)

  datatype Regs = Regs(fsm: Fsm, bus: Bus)

  /** What one clock edge samples. */
  datatype In = In(adr: Num32, datW: Word32, we: bool, stb: bool, cyc: bool, regout: bool)

  const CLEAR: Field := Zeros(29)
  const RESET := Regs(Fsm(Idle, 0, CLEAR, CLEAR, false, LOW), Bus(false, Zeros(32), CLEAR, NO_TRIG, false))

  predicate Busy(s: State) {
    s != Idle && s != Done
  }

  predicate Selected(b: Bus, i: In) {
    i.cyc && i.stb && i.adr / 0x10_0000 == 0xF30 && !b.ack
  }

  function Offset(i: In): nat {
    i.adr % 0x100
  }

  function CommandBits(i: In): Trig {
    Trig(i.datW[0], i.datW[1], i.datW[2], i.datW[3])
  }

  function ShiftRight(w: Field, b: bool): Field {
    w[1..] + [b]
  }

  function StateCode(s: State): nat {
    match s
    case Idle => 0 case LoadPre => 1 case ShiftIn => 2 case LoadPost => 3 case Reconfig => 4
    case CapPre => 5 case ShiftOut => 6 case TimerRst => 7 case Done => 8
  }

  /** The concatenation in the source is one bit too wide; its top zero is lost. */
  function StatusWord(f: Fsm): Word32 {
    [Busy(f.state), f.doneSticky] + OfNat(4, StateCode(f.state)) + Zeros(26)
  }

  function FsmStep(f: Fsm, b: Bus, regout: bool): Fsm {
    var g := f.(pins := LOW, doneSticky := f.doneSticky && !b.statusReadReq);
    match f.state
    case Idle =>
      var h := g.(bitCnt := 0);
      if b.trig.shiftIn then h.(shiftBuf := b.dataReg, state := LoadPre)
      else if b.trig.shiftOut then h.(state := CapPre)
      else if b.trig.reconfig then h.(state := Reconfig)
      else if b.trig.rsttimer then h.(state := TimerRst)
      else h
    case LoadPre => g.(state := ShiftIn)
    case ShiftIn =>
      var h := g.(pins := LOW.(shiftnld := true, regin := f.shiftBuf[0]), shiftBuf := ShiftRight(f.shiftBuf, false));
      if f.bitCnt == 28 then h.(bitCnt := 0, state := LoadPost) else h.(bitCnt := (f.bitCnt + 1) % 32)
    case LoadPost => g.(state := if b.trig.reconfig || b.trig.shiftIn then Reconfig else Done)
    case Reconfig => g.(pins := LOW.(rconfig := true), state := Done)
    case CapPre => g.(pins := LOW.(captnupdt := true), state := ShiftOut)
    case ShiftOut =>
      var w := ShiftRight(f.shiftBuf, regout);
      var h := g.(pins := LOW.(shiftnld := true, captnupdt := true), shiftBuf := w);
      if f.bitCnt == 28 then h.(bitCnt := 0, captureReg := w, state := Done) else h.(bitCnt := (f.bitCnt + 1) % 32)
    case TimerRst => g.(pins := LOW.(rsttimer := true), state := Done)
    case Done => g.(doneSticky := true, state := Idle)
  }

  function BusStep(b: Bus, f: Fsm, i: In): Bus {
    var c := b.(ack := false, trig := NO_TRIG, statusReadReq := false);
    if !Selected(b, i) then c
    else if i.we then
      if Offset(i) == 0x00 then c.(ack := true, dataReg := i.datW[..29])
      else if Offset(i) == 0x04 && !Busy(f.state) then c.(ack := true, trig := CommandBits(i))
      else c.(ack := true)
    else
      if Offset(i) == 0x00 then c.(ack := true, datR := f.captureReg + Zeros(3))
      else if Offset(i) == 0x08 then c.(ack := true, datR := StatusWord(f), statusReadReq := true)
      else c.(ack := true, datR := Zeros(32))
  }

  /** One clock edge: both blocks read the old registers. */
  function Step(s: Regs, i: In): Regs {
    Regs(FsmStep(s.fsm, s.bus, i.regout), BusStep(s.bus, s.fsm, i))
  }

  class WbAltremoteUpdate {
    var state: State
    var bitCnt: nat
    var shiftBuf: Field
    var captureReg: Field
    var doneSticky: bool
    var pins: Pins
    var ack: bool
    var datR: Word32
    var dataReg: Field
    var trig: Trig
    var statusReadReq: bool

    function Registers(): Regs
      reads this
    {
      Regs(Fsm(state, bitCnt, shiftBuf, captureReg, doneSticky, pins), Bus(ack, datR, dataReg, trig, statusReadReq))
    }

    constructor ()
      ensures Registers() == RESET
    {
      state, bitCnt, shiftBuf, captureReg, doneSticky, pins := Idle, 0, CLEAR, CLEAR, false, LOW;
      ack, datR, dataReg, trig, statusReadReq := false, Zeros(32), CLEAR, NO_TRIG, false;
    }

    method Clock(i: In)
      modifies this
      ensures Registers() == Step(old(Registers()), i)
    {
      var wasTrig, wasData, wasReadReq := trig, dataReg, statusReadReq;
      ghost var bus := Registers().bus;
      BusBlock(i);
      FsmBlock(wasTrig, wasData, wasReadReq, i.regout, bus);
    }

    /** The bus block still sees the other block's old registers. */
    method BusBlock(i: In)
      modifies `ack, `datR, `dataReg, `trig, `statusReadReq
      ensures Registers().bus == BusStep(old(Registers()).bus, old(Registers()).fsm, i)
    {
      var wasAck := ack;
      ack, trig, statusReadReq := false, NO_TRIG, false;
      if i.cyc && i.stb && i.adr / 0x10_0000 == 0xF30 && !wasAck {
        ack := true;
        if i.we {
          match Offset(i) {
            case 0x00 => dataReg := i.datW[..29];
            case 0x04 =>
              if !Busy(state) {
                trig := CommandBits(i);
              }
            case _ =>
          }
        } else {
          match Offset(i) {
            case 0x00 => datR := captureReg + Zeros(3);
            case 0x08 =>
              datR := StatusWord(Registers().fsm);
              statusReadReq := true;
            case _ => datR := Zeros(32);
          }
        }
      }
    }

    /** The two states that move the shift buffer by one bit. */
    method ShiftCase(regout: bool, ghost bus: Bus)
      requires Shifting(state) && pins == LOW
      modifies `state, `bitCnt, `shiftBuf, `captureReg, `pins
      ensures Registers().fsm == FsmStep(old(Registers()).fsm, bus, regout).(doneSticky := doneSticky)
    {
      var out, capturing := shiftBuf[0], state == ShiftOut;
      shiftBuf := shiftBuf[1..] + [capturing && regout];
      pins := if capturing then pins.(shiftnld := true, captnupdt := true) else pins.(shiftnld := true, regin := out);
      if bitCnt == 28 {
        bitCnt := 0;
        if capturing {
          captureReg := shiftBuf;
        }
        state := if capturing then Done else LoadPost;
      } else {
        bitCnt := (bitCnt + 1) % 32;
      }
    }

    method FsmBlock(wasTrig: Trig, wasData: Field, wasReadReq: bool, regout: bool, ghost bus: Bus)
      requires bus.trig == wasTrig && bus.dataReg == wasData && bus.statusReadReq == wasReadReq
      modifies `state, `bitCnt, `shiftBuf, `captureReg, `doneSticky, `pins
      ensures Registers().fsm == FsmStep(old(Registers()).fsm, bus, regout)
    {
      pins := LOW;
      if wasReadReq {
        doneSticky := false;
      }
      match state {
        case Idle =>
          bitCnt := 0;
          if wasTrig.shiftIn {
            shiftBuf := wasData;
            state := LoadPre;
          } else if wasTrig.shiftOut {
            state := CapPre;
          } else if wasTrig.reconfig {
            state := Reconfig;
          } else if wasTrig.rsttimer {
            state := TimerRst;
          }
        case LoadPre => state := ShiftIn;
        case ShiftIn => ShiftCase(regout, bus);
        case LoadPost => state := if wasTrig.reconfig || wasTrig.shiftIn then Reconfig else Done;
        case Reconfig =>
          pins := pins.(rconfig := true);
          state := Done;
        case CapPre =>
          pins := pins.(captnupdt := true);
          state := ShiftOut;
        case ShiftOut => ShiftCase(regout, bus);
        case TimerRst =>
          pins := pins.(rsttimer := true);
          state := Done;
        case Done =>
          doneSticky := true;
          state := Idle;
      }
    }
  }

  // ---- what every clock keeps ----

  predicate Shifting(s: State) {
    s == ShiftIn || s == ShiftOut
  }

  /** A pending trigger is one clock old, and the machine is idle when it is seen. */
  predicate Ok(s: Regs) {
    && (s.bus.trig.Any() ==> s.bus.ack && s.fsm.state == Idle)
    && (if Shifting(s.fsm.state) then s.fsm.bitCnt <= 28 else s.fsm.bitCnt == 0)
  }

  lemma StepOk(s: Regs, i: In)
    requires Ok(s)
    ensures Ok(Step(s, i))
  {
  }

  /** The registers after the first `k` clocks of any bus traffic. */
  function After(s: Regs, ins: seq<In>, k: nat): Regs
    requires k <= |ins|
  {
    if k == 0 then s else Step(After(s, ins, k - 1), ins[k - 1])
  }

  lemma {:induction false} AfterOk(s: Regs, ins: seq<In>, k: nat)
    requires Ok(s) && k <= |ins|
    ensures Ok(After(s, ins, k))
  {
    if k > 0 {
      AfterOk(s, ins, k - 1);
      StepOk(After(s, ins, k - 1), ins[k - 1]);
    }
  }

  // ---- one operation for each accepted command ----

  predicate AcceptsCommand(s: Regs, i: In) {
    Selected(s.bus, i) && i.we && Offset(i) == 0x04 && !Busy(s.fsm.state)
  }

  function One(b: bool): nat {
    if b then 1 else 0
  }

  /** How many of the first `k` clocks satisfy `p`. */
  function Count(p: nat -> bool, k: nat): nat {
    if k == 0 then 0 else Count(p, k - 1) + One(p(k - 1))
  }

  /** When each clock balances, so does the run. */
  lemma {:induction false} Balance(p: nat -> bool, q: nat -> bool, open: nat -> bool, k: nat)
    requires forall j :: 0 <= j < k ==> One(p(j)) + One(open(j)) == One(q(j)) + One(open(j + 1))
    ensures Count(p, k) + One(open(0)) == Count(q, k) + One(open(k))
  {
    if k > 0 {
      Balance(p, q, open, k - 1);
    }
  }

  /** A command with a nonzero low nibble is accepted at clock `j`. */
  predicate AcceptedAt(s: Regs, ins: seq<In>, j: nat) {
    j < |ins| && AcceptsCommand(After(s, ins, j), ins[j]) && CommandBits(ins[j]).Any()
  }

  predicate PendingAt(s: Regs, ins: seq<In>, j: nat) {
    j <= |ins| && After(s, ins, j).bus.trig.Any()
  }

  predicate RunningAt(s: Regs, ins: seq<In>, j: nat) {
    j <= |ins| && After(s, ins, j).fsm.state != Idle
  }

  predicate StartedAt(s: Regs, ins: seq<In>, j: nat) {
    !RunningAt(s, ins, j) && RunningAt(s, ins, j + 1)
  }

  predicate CompletedAt(s: Regs, ins: seq<In>, j: nat) {
    RunningAt(s, ins, j) && !RunningAt(s, ins, j + 1)
  }

  lemma StepCounts(s: Regs, i: In)
    requires Ok(s)
    ensures var t := Step(s, i);
      One(AcceptsCommand(s, i) && CommandBits(i).Any()) + One(s.bus.trig.Any())
      == One(s.fsm.state == Idle && t.fsm.state != Idle) + One(t.bus.trig.Any())
  {
  }

  lemma ClockBalances(s: Regs, ins: seq<In>, j: nat)
    requires Ok(s) && j < |ins|
    ensures One(AcceptedAt(s, ins, j)) + One(PendingAt(s, ins, j))
      == One(StartedAt(s, ins, j)) + One(PendingAt(s, ins, j + 1))
  {
    AfterOk(s, ins, j);
    StepCounts(After(s, ins, j), ins[j]);
  }

  function Acceptances(s: Regs, ins: seq<In>): nat -> bool {
    (j: nat) => AcceptedAt(s, ins, j)
  }

  function Starts(s: Regs, ins: seq<In>): nat -> bool {
    (j: nat) => StartedAt(s, ins, j)
  }

  function Completions(s: Regs, ins: seq<In>): nat -> bool {
    (j: nat) => CompletedAt(s, ins, j)
  }

  lemma {:induction false} StartsAccepted(s: Regs, ins: seq<In>, k: nat)
    requires Ok(s) && !s.bus.trig.Any() && k <= |ins|
    ensures Count(Acceptances(s, ins), k) == Count(Starts(s, ins), k) + One(PendingAt(s, ins, k))
  {
    var p, q, open := Acceptances(s, ins), Starts(s, ins), (j: nat) => PendingAt(s, ins, j);
    forall j: nat | j < k ensures One(p(j)) + One(open(j)) == One(q(j)) + One(open(j + 1)) {
      ClockBalances(s, ins, j);
    }
    Balance(p, q, open, k);
    assert !open(0);
  }

  lemma StartsCompleted(s: Regs, ins: seq<In>, k: nat)
    requires s.fsm.state == Idle && k <= |ins|
    ensures Count(Starts(s, ins), k) == Count(Completions(s, ins), k) + One(RunningAt(s, ins, k))
  {
    var p, q, open := Starts(s, ins), Completions(s, ins), (j: nat) => RunningAt(s, ins, j);
    forall j: nat | j < k ensures One(p(j)) + One(open(j)) == One(q(j)) + One(open(j + 1)) {
      RunBalances(s, ins, j);
    }
    Balance(p, q, open, k);
    assert !open(0);
  }

  lemma RunBalances(s: Regs, ins: seq<In>, j: nat)
    ensures One(StartedAt(s, ins, j)) + One(RunningAt(s, ins, j))
      == One(CompletedAt(s, ins, j)) + One(RunningAt(s, ins, j + 1))
  {
  }

  /** Under any traffic from reset, every accepted nonzero command starts exactly one operation,
      no operation starts without a command, and operations never overlap. */
  lemma {:induction false} CommandsAndOperations(ins: seq<In>, k: nat)
    requires k <= |ins|
    ensures Count(Acceptances(RESET, ins), k) == Count(Starts(RESET, ins), k) + One(PendingAt(RESET, ins, k))
    ensures Count(Starts(RESET, ins), k) == Count(Completions(RESET, ins), k) + One(RunningAt(RESET, ins, k))
  {
    StartsAccepted(RESET, ins, k);
    StartsCompleted(RESET, ins, k);
  }

  // ---- the course of an operation ----

  datatype Op = ShiftInOp | ShiftOutOp | ReconfigOp | TimerOp

  /** The source's priority. */
  function OpOf(t: Trig): Op {
    if t.shiftIn then ShiftInOp else if t.shiftOut then ShiftOutOp else if t.reconfig then ReconfigOp else TimerOp
  }

  /** Clocks from the pending trigger back to idle. */
  function Duration(op: Op): nat {
    match op case ShiftInOp => 33 case ShiftOutOp => 32 case _ => 3
  }

  function Scheduled(op: Op, k: nat): State {
    if k == 0 || k >= Duration(op) then Idle
    else if k == Duration(op) - 1 then Done
    else
      match op
      case ShiftInOp => if k == 1 then LoadPre else if k <= 30 then ShiftIn else LoadPost
      case ShiftOutOp => if k == 1 then CapPre else ShiftOut
      case ReconfigOp => Reconfig
      case TimerOp => TimerRst
  }

  /** The state machine is where the schedule says, and no new command was taken. */
  predicate OnSchedule(t: Regs, op: Op, k: nat) {
    && t.fsm.state == Scheduled(op, k)
    && t.fsm.bitCnt == (if Shifting(t.fsm.state) then k - 2 else 0)
    && (0 < k < Duration(op) ==> t.bus.trig == NO_TRIG)
  }

  predicate Pending(s: Regs, op: Op) {
    Ok(s) && s.bus.trig.Any() && OpOf(s.bus.trig) == op
  }

  lemma NextOnSchedule(t: Regs, op: Op, k: nat, i: In)
    requires OnSchedule(t, op, k) && 0 < k < Duration(op)
    ensures OnSchedule(Step(t, i), op, k + 1)
  {
  }

  /** Once triggered, an operation runs to its end whatever the bus does meanwhile. */
  lemma {:induction false} OperationRuns(s: Regs, op: Op, ins: seq<In>, k: nat)
    requires Pending(s, op) && k <= |ins| && k <= Duration(op)
    ensures OnSchedule(After(s, ins, k), op, k)
  {
    if k > 1 {
      OperationRuns(s, op, ins, k - 1);
      NextOnSchedule(After(s, ins, k - 1), op, k - 1, ins[k - 1]);
    } else if k == 1 {
      assert After(s, ins, 0) == s;
    }
  }

  /** From an accepted command to a pending operation on the DATA value of that moment. */
  lemma AcceptedPends(s: Regs, i: In)
    requires Ok(s) && AcceptsCommand(s, i) && CommandBits(i).Any()
    ensures Pending(Step(s, i), OpOf(CommandBits(i))) && Step(s, i).bus.dataReg == s.bus.dataReg
  {
  }

  /** Whatever state the machine is in, 33 clocks later it has been idle. */
  lemma ReturnsToIdle(s: Regs, ins: seq<In>)
    requires Ok(s) && |ins| >= 33
    ensures exists k :: 0 <= k <= 33 && After(s, ins, k).fsm.state == Idle
  {
    var k := Left(s.fsm);
    IdleAfter(s, ins, k);
  }

  /** Clocks left of a running operation. */
  function Left(f: Fsm): nat
    requires Shifting(f.state) ==> f.bitCnt <= 28
  {
    match f.state
    case Idle => 0
    case LoadPre => 32
    case ShiftIn => 31 - f.bitCnt
    case LoadPost => 2
    case CapPre => 31
    case ShiftOut => 30 - f.bitCnt
    case Reconfig => 2
    case TimerRst => 2
    case Done => 1
  }

  lemma StepLeft(s: Regs, i: In)
    requires Ok(s) && s.fsm.state != Idle
    ensures Ok(Step(s, i)) && Left(Step(s, i).fsm) == Left(s.fsm) - 1
  {
  }

  lemma {:induction false} IdleAfter(s: Regs, ins: seq<In>, k: nat)
    requires Ok(s) && k <= Left(s.fsm) && k <= |ins|
    ensures Ok(After(s, ins, k)) && Left(After(s, ins, k).fsm) == Left(s.fsm) - k
  {
    if k > 0 {
      IdleAfter(s, ins, k - 1);
      StepLeft(After(s, ins, k - 1), ins[k - 1]);
    }
  }

  // ---- the outputs ----

  /** The outputs are registered, so they show the state of one clock ago. */
  predicate PinsOnSchedule(t: Regs, op: Op, k: nat)
    requires k > 0
  {
    && t.fsm.pins.shiftnld == Shifting(Scheduled(op, k - 1))
    && t.fsm.pins.captnupdt == (op == ShiftOutOp && 2 <= k <= 31)
    && t.fsm.pins.rconfig == (op == ReconfigOp && k == 2)
    && t.fsm.pins.rsttimer == (op == TimerOp && k == 2)
  }

  lemma NextPins(t: Regs, op: Op, k: nat, i: In)
    requires OnSchedule(t, op, k) && k < Duration(op)
    ensures PinsOnSchedule(Step(t, i), op, k + 1)
  {
  }

  /** `shiftnld` is high for exactly 29 clocks of a shift and never otherwise; a reconfiguration is
      requested by its own command only, never at the end of a shift-in. */
  lemma {:induction false} OperationPins(s: Regs, op: Op, ins: seq<In>, k: nat)
    requires Pending(s, op) && 0 < k <= |ins| && k <= Duration(op)
    ensures PinsOnSchedule(After(s, ins, k), op, k)
    ensures After(s, ins, k).fsm.pins.shiftnld <==> (op == ShiftInOp || op == ShiftOutOp) && 3 <= k <= 31
  {
    OperationRuns(s, op, ins, k - 1);
    NextPins(After(s, ins, k - 1), op, k - 1, ins[k - 1]);
  }

  // ---- shifting in ----

  /** After `k` clocks `k - 2` bits of the snapshot have left the buffer at the low end. */
  predicate Holds(t: Regs, data: Field, k: nat) {
    && (1 <= k <= 31 ==> forall i :: 0 <= i < 29 ==> t.fsm.shiftBuf[i] == (Gone(k) + i < 29 && data[Gone(k) + i]))
    && (3 <= k <= 31 ==> t.fsm.pins.regin == data[k - 3])
  }

  function Gone(k: nat): nat {
    if k < 2 then 0 else k - 2
  }

  lemma NextHolds(t: Regs, data: Field, k: nat, i: In)
    requires OnSchedule(t, ShiftInOp, k) && 0 < k <= 31 && Holds(t, data, k)
    ensures Holds(Step(t, i), data, k + 1)
  {
  }

  lemma {:induction false} BufferHolds(s: Regs, ins: seq<In>, k: nat)
    requires Pending(s, ShiftInOp) && 0 < k <= |ins| && k <= 31
    ensures Holds(After(s, ins, k), s.bus.dataReg, k)
  {
    if k > 1 {
      BufferHolds(s, ins, k - 1);
      OperationRuns(s, ShiftInOp, ins, k - 1);
      NextHolds(After(s, ins, k - 1), s.bus.dataReg, k - 1, ins[k - 1]);
    } else {
      assert After(s, ins, 0) == s;
    }
  }

  /** An ideal 29-bit shift register behind the pins; `loads` is whatever it does when not shifting. */
  function Block(s: Regs, ins: seq<In>, start: Field, loads: nat -> Field, k: nat): Field
    requires k <= |ins|
  {
    if k == 0 then start
    else
      var pins := After(s, ins, k - 1).fsm.pins;
      if pins.shiftnld then ShiftRight(Block(s, ins, start, loads, k - 1), pins.regin) else loads(k)
  }

  /** The last `k - 3` bits of the block are the first of `data`. */
  predicate Filled(block: Field, data: Field, k: nat)
    requires 3 <= k <= 32
  {
    forall i :: 0 <= i < k - 3 ==> block[32 - k + i] == data[i]
  }

  lemma OneMoreBit(block: Field, data: Field, k: nat)
    requires 3 <= k < 32 && Filled(block, data, k)
    ensures Filled(ShiftRight(block, data[k - 3]), data, k + 1)
  {
  }

  lemma BlockShifts(s: Regs, ins: seq<In>, start: Field, loads: nat -> Field, k: nat)
    requires Pending(s, ShiftInOp) && k <= |ins| && 3 < k <= 32
    ensures Block(s, ins, start, loads, k)
      == ShiftRight(Block(s, ins, start, loads, k - 1), s.bus.dataReg[k - 4])
  {
    OperationPins(s, ShiftInOp, ins, k - 1);
    BufferHolds(s, ins, k - 1);
  }

  lemma {:induction false} BlockFills(s: Regs, ins: seq<In>, start: Field, loads: nat -> Field, k: nat)
    requires Pending(s, ShiftInOp) && k <= |ins| && 3 <= k <= 32
    ensures Filled(Block(s, ins, start, loads, k), s.bus.dataReg, k)
  {
    if k > 3 {
      BlockFills(s, ins, start, loads, k - 1);
      OneMoreBit(Block(s, ins, start, loads, k - 1), s.bus.dataReg, k - 1);
      BlockShifts(s, ins, start, loads, k);
    }
  }

  /** A shift-in leaves in the block the DATA value of the moment the command was accepted, whatever
      is written to DATA or CMD in the meantime. */
  lemma ShiftInDelivers(s: Regs, i: In, ins: seq<In>, start: Field, loads: nat -> Field)
    requires Ok(s) && AcceptsCommand(s, i) && CommandBits(i).shiftIn && |ins| >= 33
    ensures Block(Step(s, i), ins, start, loads, 32) == s.bus.dataReg
    ensures After(Step(s, i), ins, 33).fsm.state == Idle
    ensures forall k :: 0 < k <= 33 ==> !After(Step(s, i), ins, k).fsm.pins.rconfig
  {
    AcceptedPends(s, i);
    var t := Step(s, i);
    BlockFills(t, ins, start, loads, 32);
    OperationRuns(t, ShiftInOp, ins, 33);
    forall k | 0 < k <= 33 ensures !After(t, ins, k).fsm.pins.rconfig {
      OperationPins(t, ShiftInOp, ins, k);
    }
  }

  // ---- shifting out ----

  /** The samples taken so far are at the high end of the buffer. */
  predicate Sampled(t: Regs, ins: seq<In>, k: nat)
    requires k <= |ins|
  {
    && (forall j :: 2 <= j < k && j < 31 ==> t.fsm.shiftBuf[29 - (if k < 31 then k else 31) + j] == ins[j].regout)
    && (k >= 31 ==> t.fsm.captureReg == t.fsm.shiftBuf)
  }

  lemma NextSampled(t: Regs, ins: seq<In>, k: nat)
    requires OnSchedule(t, ShiftOutOp, k) && 0 < k < |ins| && k < 32 && Sampled(t, ins, k)
    ensures Sampled(Step(t, ins[k]), ins, k + 1)
  {
  }

  lemma {:induction false} SamplesKept(s: Regs, ins: seq<In>, k: nat)
    requires Pending(s, ShiftOutOp) && 0 < k <= |ins| && k <= 32
    ensures Sampled(After(s, ins, k), ins, k)
  {
    if k > 1 {
      SamplesKept(s, ins, k - 1);
      OperationRuns(s, ShiftOutOp, ins, k - 1);
      NextSampled(After(s, ins, k - 1), ins, k - 1);
    }
  }

  /** After a shift-out, bit `i` of the word that DATA reads back is the i-th sample of `regout`. */
  lemma ShiftOutCaptures(s: Regs, i: In, ins: seq<In>)
    requires Ok(s) && AcceptsCommand(s, i) && OpOf(CommandBits(i)) == ShiftOutOp && CommandBits(i).Any() && |ins| >= 32
    ensures var t := After(Step(s, i), ins, 32);
      t.fsm.state == Idle && forall b :: 0 <= b < 29 ==> t.fsm.captureReg[b] == ins[2 + b].regout
  {
    AcceptedPends(s, i);
    SamplesKept(Step(s, i), ins, 32);
    OperationRuns(Step(s, i), ShiftOutOp, ins, 32);
    var t := After(Step(s, i), ins, 32);
    forall b | 0 <= b < 29 ensures t.fsm.captureReg[b] == ins[2 + b].regout {
      assert t.fsm.shiftBuf[29 - 31 + (2 + b)] == ins[2 + b].regout;
    }
  }

  // ---- as the host sees it ----

  /** A transfer to the register at offset `off`, in the megabyte at 0xF3000000. */
  predicate Addresses(i: In, off: nat) {
    i.cyc && i.stb && 0xF300_0000 <= i.adr <= 0xF30F_FFFF && i.adr % 0x100 == off
  }

  predicate WritesData(s: Regs, i: In) {
    !s.bus.ack && Addresses(i, 0x00) && i.we
  }

  predicate ReadsData(s: Regs, i: In) {
    !s.bus.ack && Addresses(i, 0x00) && !i.we
  }

  /** A write to CMD that finds the machine idle or done. */
  predicate WritesCommand(s: Regs, i: In) {
    !s.bus.ack && Addresses(i, 0x04) && i.we && (s.fsm.state == Idle || s.fsm.state == Done)
  }

  predicate ReadsStatus(s: Regs, i: In) {
    !s.bus.ack && Addresses(i, 0x08) && !i.we
  }

  predicate WritesDataAt(s: Regs, ins: seq<In>, j: nat) {
    j < |ins| && WritesData(After(s, ins, j), ins[j])
  }

  predicate ReadsStatusAt(s: Regs, ins: seq<In>, j: nat) {
    j < |ins| && ReadsStatus(After(s, ins, j), ins[j])
  }

  lemma InMegabyte(adr: nat)
    ensures adr / 0x10_0000 == 0xF30 <==> 0xF300_0000 <= adr <= 0xF30F_FFFF
  {
  }

  /** Transfers in the megabyte are acknowledged, unless the one before was on the last clock. */
  lemma AckExactly(s: Regs, i: In)
    ensures Step(s, i).bus.ack <==> !s.bus.ack && i.cyc && i.stb && 0xF300_0000 <= i.adr <= 0xF30F_FFFF
  {
    InMegabyte(i.adr);
  }

  /** After reset everything reads as zero, no output is high, and the DATA register is clear. */
  lemma ResetReads(i: In)
    ensures RESET.fsm.pins == Pins(false, false, false, false, false) && RESET.bus.dataReg == Zeros(29)
    ensures ReadsStatus(RESET, i) || ReadsData(RESET, i) ==> Step(RESET, i).bus.datR == Zeros(32)
    ensures Addresses(i, 0x04) ==> Step(RESET, i).bus.ack
  {
    InMegabyte(i.adr);
    if ReadsStatus(RESET, i) {
      StatusRead(RESET, i);
      assert forall b :: 2 <= b < 6 ==> !Step(RESET, i).bus.datR[b];
    }
  }

  /** Only DATA and STATUS can be read. */
  lemma OtherReads(s: Regs, i: In, off: nat)
    requires !s.bus.ack && Addresses(i, off) && !i.we && off != 0x00 && off != 0x08
    ensures Step(s, i).bus.datR == Zeros(32)
  {
    InMegabyte(i.adr);
  }

  lemma DataStep(s: Regs, i: In)
    ensures Step(s, i).bus.dataReg == if WritesData(s, i) then i.datW[..29] else s.bus.dataReg
  {
    InMegabyte(i.adr);
  }

  lemma {:induction false} DataKept(s: Regs, ins: seq<In>, k: nat)
    requires k <= |ins| && forall j :: 0 <= j < k ==> !WritesDataAt(s, ins, j)
    ensures After(s, ins, k).bus.dataReg == s.bus.dataReg
  {
    if k > 0 {
      DataKept(s, ins, k - 1);
      assert !WritesDataAt(s, ins, k - 1);
      DataStep(After(s, ins, k - 1), ins[k - 1]);
    }
  }

  /** What the host wrote last to DATA is what a later shift-in leaves in the block, whatever other
      traffic there is before, between and after. */
  lemma HostShiftsIn(s: Regs, write: In, ins: seq<In>, k: nat, later: seq<In>, start: Field, loads: nat -> Field)
    requires Ok(s) && WritesData(s, write) && k < |ins| && |later| >= 33
    requires forall j :: 0 <= j < k ==> !WritesDataAt(Step(s, write), ins, j)
    requires WritesCommand(After(Step(s, write), ins, k), ins[k]) && ins[k].datW[0]
    ensures Block(After(Step(s, write), ins, k + 1), later, start, loads, 32) == write.datW[..29]
  {
    var t := Step(s, write);
    StepOk(s, write);
    AfterOk(t, ins, k);
    DataStep(s, write);
    DataKept(t, ins, k);
    InMegabyte(ins[k].adr);
    ShiftInDelivers(After(t, ins, k), ins[k], later, start, loads);
  }

  /** Which bit of CMD does what; the lowest bit that is set decides. */
  lemma CommandPins(s: Regs, i: In, ins: seq<In>, k: nat)
    requires Ok(s) && WritesCommand(s, i) && (exists b :: 0 <= b < 4 && i.datW[b]) && 0 < k <= 3 && k <= |ins|
    ensures var pins, w := After(Step(s, i), ins, k).fsm.pins, i.datW;
      && (pins.shiftnld <==> k == 3 && (w[0] || w[1]))
      && (pins.captnupdt <==> k >= 2 && w[1] && !w[0])
      && (pins.rconfig <==> k == 2 && w[2] && !w[1] && !w[0])
      && (pins.rsttimer <==> k == 2 && w[3] && !w[2] && !w[1] && !w[0])
  {
    InMegabyte(i.adr);
    AcceptedPends(s, i);
    OperationPins(Step(s, i), OpOf(CommandBits(i)), ins, k);
  }

  // ---- reading DATA ----

  /** No shift-out is pending or running. */
  predicate NotCapturing(s: Regs) {
    s.fsm.state != CapPre && s.fsm.state != ShiftOut && (s.bus.trig.shiftOut ==> s.bus.trig.shiftIn)
  }

  predicate CommandsShiftOut(s: Regs, i: In) {
    WritesCommand(s, i) && i.datW[1] && !i.datW[0]
  }

  predicate CommandsShiftOutAt(s: Regs, ins: seq<In>, j: nat) {
    j < |ins| && CommandsShiftOut(After(s, ins, j), ins[j])
  }

  lemma CaptureStep(s: Regs, i: In)
    requires NotCapturing(s) && !CommandsShiftOut(s, i)
    ensures NotCapturing(Step(s, i)) && Step(s, i).fsm.captureReg == s.fsm.captureReg
  {
    InMegabyte(i.adr);
  }

  lemma {:induction false} CaptureKept(s: Regs, ins: seq<In>, from: nat, k: nat)
    requires from <= k <= |ins| && NotCapturing(After(s, ins, from))
    requires forall j :: from <= j < k ==> !CommandsShiftOutAt(s, ins, j)
    ensures NotCapturing(After(s, ins, k)) && After(s, ins, k).fsm.captureReg == After(s, ins, from).fsm.captureReg
    decreases k - from
  {
    if from < k {
      CaptureKept(s, ins, from, k - 1);
      assert !CommandsShiftOutAt(s, ins, k - 1);
      CaptureStep(After(s, ins, k - 1), ins[k - 1]);
    }
  }

  /** Until another shift-out is commanded, every read of DATA returns the 29 samples, and zeros above. */
  lemma HostReadsBack(s: Regs, i: In, ins: seq<In>, k: nat)
    requires Ok(s) && CommandsShiftOut(s, i) && 32 <= k < |ins|
    requires forall j :: 31 <= j < k ==> !CommandsShiftOutAt(Step(s, i), ins, j)
    requires ReadsData(After(Step(s, i), ins, k), ins[k])
    ensures var r := After(Step(s, i), ins, k + 1).bus.datR;
      (forall b :: 0 <= b < 29 ==> r[b] == ins[2 + b].regout) && !r[29] && !r[30] && !r[31]
  {
    var t := Step(s, i);
    InMegabyte(i.adr);
    AcceptedPends(s, i);
    OperationRuns(t, ShiftOutOp, ins, 31);
    CaptureKept(t, ins, 31, 32);
    CaptureKept(t, ins, 32, k);
    ShiftOutCaptures(s, i, ins);
    InMegabyte(ins[k].adr);
    assert After(t, ins, k + 1).bus.datR == After(t, ins, k).fsm.captureReg + Zeros(3);
  }

  // ---- reading STATUS ----

  /** Bit 0 is busy, bit 1 done, and the state number is in bits 2 to 5. */
  lemma StatusRead(s: Regs, i: In)
    requires ReadsStatus(s, i)
    ensures var r := Step(s, i).bus.datR;
      && r[0] == (s.fsm.state != Idle && s.fsm.state != Done) && r[1] == s.fsm.doneSticky
      && Bit(r[2]) + 2 * Bit(r[3]) + 4 * Bit(r[4]) + 8 * Bit(r[5]) == (match s.fsm.state
          case Idle => 0 case LoadPre => 1 case ShiftIn => 2 case LoadPost => 3 case Reconfig => 4
          case CapPre => 5 case ShiftOut => 6 case TimerRst => 7 case Done => 8)
      && forall b :: 6 <= b < 32 ==> !r[b]
  {
    InMegabyte(i.adr);
    var c := OfNat(4, StateCode(s.fsm.state));
    var word := StatusWord(s.fsm);
    assert word[2] == c[0] && word[3] == c[1] && word[4] == c[2] && word[5] == c[3];
    CodeBits(StateCode(s.fsm.state));
  }

  lemma CodeBits(n: nat)
    requires n < 16
    ensures var c := OfNat(4, n); Bit(c[0]) + 2 * Bit(c[1]) + 4 * Bit(c[2]) + 8 * Bit(c[3]) == n
  {
    assert Pow2(4) == 16;
    ToNatOfNat(4, n);
    var c := OfNat(4, n);
    assert ToNatFrom(c, 2) == Bit(c[2]) + 2 * ToNatFrom(c, 3);
    assert ToNatFrom(c, 0) == Bit(c[0]) + 2 * ToNatFrom(c, 1);
  }

  /** A host that polls during an operation reads busy until the last clock but one. */
  lemma BusyWhileRunning(s: Regs, op: Op, ins: seq<In>, k: nat)
    requires Pending(s, op) && 0 < k < |ins| && k <= Duration(op) && ReadsStatusAt(s, ins, k)
    ensures After(s, ins, k + 1).bus.datR[0] <==> k < Duration(op) - 1
  {
    OperationRuns(s, op, ins, k);
    StatusRead(After(s, ins, k), ins[k]);
  }

  lemma DoneStep(s: Regs, i: In)
    ensures Step(s, i).fsm.doneSticky <==> s.fsm.state == Done || (s.fsm.doneSticky && !s.bus.statusReadReq)
    ensures Step(s, i).bus.statusReadReq <==> ReadsStatus(s, i)
  {
    InMegabyte(i.adr);
  }

  predicate DoneBitAt(s: Regs, ins: seq<In>, j: nat) {
    j <= |ins| && After(s, ins, j).fsm.doneSticky
  }

  predicate LastClockAt(s: Regs, ins: seq<In>, j: nat) {
    j <= |ins| && After(s, ins, j).fsm.state == Done
  }

  lemma DoneAt(s: Regs, ins: seq<In>, j: nat)
    requires 1 < j <= |ins|
    ensures DoneBitAt(s, ins, j)
      <==> LastClockAt(s, ins, j - 1) || (DoneBitAt(s, ins, j - 1) && !ReadsStatusAt(s, ins, j - 2))
  {
    DoneStep(After(s, ins, j - 1), ins[j - 1]);
    DoneStep(After(s, ins, j - 2), ins[j - 2]);
  }

  lemma LastClockIs(s: Regs, op: Op, ins: seq<In>)
    requires Pending(s, op) && Duration(op) <= |ins|
    ensures LastClockAt(s, ins, Duration(op) - 1)
  {
    OperationRuns(s, op, ins, Duration(op) - 1);
  }

  lemma {:induction false} SetUntilRead(done: nat -> bool, last: nat -> bool, read: nat -> bool, from: nat, k: nat)
    requires 1 < from <= k && last(from - 1)
    requires forall j :: from <= j <= k ==> (done(j) <==> last(j - 1) || (done(j - 1) && !read(j - 2)))
    requires forall j :: from - 1 <= j < k - 1 ==> !read(j)
    ensures done(k)
    decreases k
  {
    if k > from {
      SetUntilRead(done, last, read, from, k - 1);
    }
  }

  /** The end of an operation sets the done bit, and it stays until a read of STATUS. */
  lemma DoneUntilRead(s: Regs, op: Op, ins: seq<In>, k: nat)
    requires Pending(s, op) && Duration(op) <= k <= |ins|
    requires forall j :: Duration(op) - 1 <= j < k - 1 ==> !ReadsStatusAt(s, ins, j)
    ensures DoneBitAt(s, ins, k)
  {
    var done, last := (j: nat) => DoneBitAt(s, ins, j), (j: nat) => LastClockAt(s, ins, j);
    var read := (j: nat) => ReadsStatusAt(s, ins, j);
    forall j | Duration(op) <= j <= k ensures done(j) <==> last(j - 1) || (done(j - 1) && !read(j - 2)) {
      DoneAt(s, ins, j);
    }
    LastClockIs(s, op, ins);
    SetUntilRead(done, last, read, Duration(op), k);
  }

  lemma {:induction false} NotDoneYet(s: Regs, op: Op, ins: seq<In>, k: nat)
    requires Pending(s, op) && !s.fsm.doneSticky && k <= |ins| && k < Duration(op)
    ensures !After(s, ins, k).fsm.doneSticky
  {
    if k > 0 {
      NotDoneYet(s, op, ins, k - 1);
      OperationRuns(s, op, ins, k - 1);
      DoneStep(After(s, ins, k - 1), ins[k - 1]);
    }
  }

  /** The read that comes on the last clock of an operation shows neither busy nor done, and takes the
      done bit with it; no other read loses it. */
  lemma DoneLostExactlyWhen(s: Regs, op: Op, ins: seq<In>)
    requires Pending(s, op) && !s.fsm.doneSticky && |ins| > Duration(op)
    ensures var last := Duration(op) - 1;
      && (After(s, ins, last + 2).fsm.doneSticky <==> !ReadsStatusAt(s, ins, last))
      && (ReadsStatusAt(s, ins, last) ==>
        !After(s, ins, last + 1).bus.datR[0] && !After(s, ins, last + 1).bus.datR[1])
  {
    var last := Duration(op) - 1;
    OperationRuns(s, op, ins, last);
    OperationRuns(s, op, ins, last + 1);
    NotDoneYet(s, op, ins, last);
    DoneStep(After(s, ins, last), ins[last]);
    DoneStep(After(s, ins, last + 1), ins[last + 1]);
    if ReadsStatusAt(s, ins, last) {
      StatusRead(After(s, ins, last), ins[last]);
    }
  }
}
