/**
 * The display controller clock by clock: fpga/priveye.v with its transmitter, and the FIFO-reading
 * state machine of fpga/eye.v that feeds it.
 *
 * The timers that watch the display's READY line (online, time-out, sleep, reopening of the window)
 * are inputs of each clock edge; everything else is registers.
 */
module PrivEye {
  import opened Bytes
  import opened CommandFsm
  import opened Transmitter

  // fpga/priveye.v:30-35, 152-154
  const WINDOW_INIT_BYTES := 10000
  const FULL_REFRESH_BYTES := 25200
  const BOS_T_TICKS := 4
  const NBOS_T_TICKS := 4
  const BYTES_MAX := 32767

  datatype OpState = OpCodeLow | OpCodeHigh | OpWait | OpPayload

  /** The registers of the operation logic. */
  datatype Ctl = Ctl(op: OpState, image: bool, dupMode: bool, newMode: bool, revMode: bool,
                     bytes: nat, ack: bool, transmit: bool, nbos: bool)

  datatype Window = Window(window: nat, refill: nat, pass: bool)

  datatype ReadState = Clear | GetData | FifoWait | SendData

  /** The reading state machine and the FIFO's output register. */
  datatype Reader = Reader(state: ReadState, bus: u8)

  datatype Hw = Hw(tx: Tx, ctl: Ctl, win: Window, bosT: nat, nbosT: nat, refresh: nat, reader: Reader)

  /** What a clock edge finds on the inputs. `next` is the byte a non-empty FIFO would deliver. */
  datatype Env = Env(ready: bool, online: bool, timeout: bool, sleep: bool, reopen: bool,
                     pseudoAck: bool, empty: bool, next: u8)

  function AfterReset(bus: u8): Hw {
    Hw(RESET, Ctl(OpCodeLow, false, false, false, false, 0, false, false, true),
       Window(0, WINDOW_INIT_BYTES, false), 0, 0, 0, Reader(Clear, bus))
  }

  // ---- Wires ----

  predicate Send(h: Hw) {
    h.reader.state.SendData? && !h.ctl.ack
  }

  predicate Pops(h: Hw, e: Env) {
    h.reader.state.GetData? && !e.empty
  }

  predicate Dup(c: Ctl) {
    c.dupMode && c.image
  }

  predicate NewImage(c: Ctl) {
    c.newMode && c.image
  }

  /** The byte offered to the transmitter: flipped for images in reverse mode. */
  function TxData(h: Hw): u8 {
    Flip(h.ctl.revMode && h.ctl.image, h.reader.bus)
  }

  predicate Cold(h: Hw) {
    h.refresh != FULL_REFRESH_BYTES
  }

  // ---- One clock edge, register by register ----

  /** `counter.v` with limit `n`. */
  function Count(n: nat, count: nat, inc: bool, zap: bool): nat {
    if zap then 0 else if inc && count != n then count + 1 else count
  }

  function ReaderNext(r: Reader, ack: bool, e: Env): Reader {
    var next :=
      match r.state
      case Clear => GetData
      case GetData => if e.empty then GetData else FifoWait
      case FifoWait => SendData
      case SendData => if ack then GetData else SendData;
    Reader(if e.online then next else Clear, if r.state.GetData? && !e.empty then e.next else r.bus)
  }

  function WindowNext(w: Window, c: Ctl, e: Env): Window {
    if e.reopen || e.sleep then
      Window(w.refill, if e.sleep then WINDOW_INIT_BYTES else 0, true)
    else
      Window(if e.pseudoAck && w.window != 0 then w.window - 1 else w.window,
             if e.pseudoAck && w.refill != BYTES_MAX then w.refill + 1 else w.refill,
             w.pass && !(NewImage(c) || w.window <= c.bytes))
  }

  /** What the operation FSM reads besides its own registers. */
  datatype OpIn = OpIn(send: bool, data: u8, txAck: bool, txIdle: bool, ready: bool,
                       pass: bool, nbosDone: bool, bosDone: bool)

  function OpInputs(h: Hw, e: Env): OpIn {
    OpIn(Send(h), h.reader.bus, h.tx.ack, h.tx.idle, e.ready, h.win.pass,
         h.nbosT == NBOS_T_TICKS, h.bosT == BOS_T_TICKS)
  }

  /** The operation FSM before the override by time-out or offline. */
  function OpNext(c: Ctl, i: OpIn): Ctl {
    var quiet := c.(ack := false, transmit := false, nbos := true);
    match c.op
    case OpCodeLow =>
      if !i.send then quiet
      else if i.data % 2 == 1 then
        Ctl(OpWait, false, i.data / 128 == 1, i.data / 64 % 2 == 1, i.data / 32 % 2 == 1,
            BosCount(i.data), true, false, true)
      else
        quiet.(op := OpCodeHigh, image := true, bytes := i.data / 2, ack := true)
    case OpCodeHigh =>
      if !i.send then quiet
      else quiet.(op := OpWait, bytes := i.data * 128 + c.bytes % 128, ack := true)
    case OpWait =>
      if i.nbosDone && (c.image || (i.txIdle && i.ready)) && (c.bytes == 0 || (i.pass && i.send))
      then quiet.(op := OpPayload) else quiet
    case OpPayload =>
      if c.bytes != 0 then
        c.(transmit := i.ready && i.send, ack := i.txAck && !Dup(c), nbos := c.image,
           bytes := c.bytes - if i.txAck then 1 else 0)
      else if c.image || (i.bosDone && i.txIdle) then
        c.(op := OpCodeLow, transmit := false, ack := Dup(c), nbos := c.image)
      else
        c.(transmit := false, ack := false, nbos := c.image)
  }

  function CtlNext(h: Hw, e: Env): Ctl {
    OpNext(h.ctl, OpInputs(h, e))
  }

  /** A time-out or a disconnection ends the current operation. */
  function Override(c: Ctl, e: Env): Ctl {
    if e.online && !e.timeout then c else c.(op := OpCodeLow)
  }

  function Edge(h: Hw, e: Env): Hw {
    Hw(Clock(h.tx, h.ctl.transmit, TxData(h)),
       Override(CtlNext(h, e), e),
       WindowNext(h.win, h.ctl, e),
       Count(BOS_T_TICKS, h.bosT, !h.ctl.nbos, h.ctl.nbos),
       Count(NBOS_T_TICKS, h.nbosT, h.ctl.nbos, !h.ctl.nbos),
       Count(FULL_REFRESH_BYTES, h.refresh, h.tx.ack, !e.online || (Cold(h) && !h.ctl.nbos)),
       ReaderNext(h.reader, h.ctl.ack, e))
  }

  /** The registers change independently of each other. */
  lemma EdgeParts(h: Hw, e: Env, i: OpIn, h': Hw)
    requires i == OpInputs(h, e)
    requires h'.tx == Clock(h.tx, h.ctl.transmit, TxData(h))
    requires h'.ctl == Override(OpNext(h.ctl, i), e)
    requires h'.win == WindowNext(h.win, h.ctl, e)
    requires h'.bosT == Count(BOS_T_TICKS, h.bosT, !h.ctl.nbos, h.ctl.nbos)
    requires h'.nbosT == Count(NBOS_T_TICKS, h.nbosT, h.ctl.nbos, !h.ctl.nbos)
    requires h'.refresh == Count(FULL_REFRESH_BYTES, h.refresh, h.tx.ack, !e.online || (Cold(h) && !h.ctl.nbos))
    requires h'.reader == ReaderNext(h.reader, h.ctl.ack, e)
    ensures h' == Edge(h, e)
  {}

  /** The registers after some clock edges. */
  function After(h: Hw, es: seq<Env>): Hw
    decreases |es|
  {
    if es == [] then h else After(Edge(h, es[0]), es[1..])
  }

  /** A byte on its way to the display, marked by the line it travels with. */
  function Labelled(nbos: bool, b: u8): Event {
    if nbos then ImageByte(b) else BosByte(b)
  }

  /** What the edge starts on the display's wires: the BOS line falls, or a byte is latched. */
  function Emits(h: Hw, e: Env): seq<Event> {
    (if h.ctl.nbos && !Edge(h, e).ctl.nbos then [BosBegin] else [])
    + (if Latches(h.tx, h.ctl.transmit) then [Labelled(h.ctl.nbos, TxData(h))] else [])
  }

  // ---- How the registers stand to the byte-level interpreter ----

  /** The held byte counts as consumed from its acknowledgement on; a literal payload byte one clock earlier. */
  predicate Counted(h: Hw) {
    h.reader.state.SendData? && (h.ctl.ack || (h.tx.ack && !Dup(h.ctl)))
  }

  predicate Takes(h: Hw, e: Env) {
    !Counted(h) && Counted(Edge(h, e))
  }

  /** Payload bytes not yet latched. */
  function Rem(h: Hw): int {
    h.ctl.bytes - if h.tx.ack then 1 else 0
  }

  function ImageOp(n: int): Op {
    if n <= 0 then CodeLow else ImagePayload(n)
  }

  function BosOp(n: int): Op {
    if n <= 0 then CodeLow else BosPayload(n)
  }

  /** The interpreter's state `f` is that of the registers. */
  ghost predicate Agrees(h: Hw, f: Fsm) {
    var c := h.ctl;
    && f.dup == c.dupMode && f.newFrame == c.newMode && f.rev == c.revMode
    && match c.op
       case OpCodeLow => f.op == CodeLow
       case OpCodeHigh => c.image && c.bytes < 128 && f.op == CodeHigh(c.bytes)
       case OpWait =>
         if c.image then f.op == ImageOp(c.bytes) && (c.bytes == 0 ==> c.ack)
         else f.op == BosOp(c.bytes)
       case OpPayload =>
         if !c.image then f.op == BosOp(Rem(h))
         else if !c.dupMode then f.op == ImageOp(Rem(h))
         else if f.op == CodeLow then c.bytes == 0 && h.reader.state.GetData?
         else f.op.ImagePayload? && f.op.left > 0 && f.op.left >= Rem(h) && (f.op.left > Rem(h) ==> Send(h))
  }

  /**
   * How many clocks an image command's second byte is at least away from the last BOS pulse: four
   * from acknowledging one byte to taking the next. So an image of no bytes never waits, and the
   * acknowledgement that dup mode then gives finds no byte held.
   */
  function Phase(h: Hw): nat {
    match h.reader.state
    case GetData => 1
    case FifoWait => 2
    case _ => if h.ctl.ack then 0 else 3
  }

  ghost predicate Paced(h: Hw) {
    && (h.ctl.op.OpCodeHigh? ==> h.nbosT >= Phase(h))
    && (h.ctl.op.OpWait? && h.ctl.image ==> h.nbosT == NBOS_T_TICKS)
    && h.nbosT <= NBOS_T_TICKS && h.bosT <= BOS_T_TICKS
    && (h.nbosT > 0 ==> h.bosT == 0)
    && (h.ctl.op.OpPayload? && !h.ctl.image && h.ctl.nbos ==> h.nbosT > 0)
  }

  /** The handshakes. */
  ghost predicate Handshakes(h: Hw) {
    var c := h.ctl;
    && h.tx.ticks < 16 && (h.tx.ack <==> h.tx.ticks == 1) && (h.tx.idle ==> h.tx.ticks == 0)
    && (c.transmit && h.tx.ticks == 0 ==> c.bytes > 0 && Send(h) && c.nbos == c.image)
    && (h.tx.ack ==> c.op.OpPayload? && c.bytes > 0 && Send(h) && c.nbos == c.image)
    && (c.transmit ==> c.op.OpPayload?)
    && (c.ack ==> h.reader.state.SendData? || (c.op.OpCodeLow? && !h.reader.state.Clear?))
  }

  /** The BOS line: it is low only during a BOS payload, and changes only between bytes. */
  ghost predicate Framed(h: Hw) {
    var c := h.ctl;
    && (c.op.OpCodeHigh? || c.op.OpWait? || (c.op.OpPayload? && c.image) ==> c.nbos)
    && (c.op.OpPayload? && !c.image && c.nbos ==> h.tx.ticks == 0 && !c.transmit)
    && (c.op.OpCodeLow? && !c.nbos ==> h.tx.ticks == 0)
  }

  ghost predicate Sound(h: Hw, f: Fsm) {
    Handshakes(h) && Framed(h) && Agrees(h, f) && Paced(h)
  }

  function FsmAfter(h: Hw, e: Env, f: Fsm): Fsm {
    if Takes(h, e) then Step(f, h.reader.bus).0 else f
  }

  function Meant(h: Hw, e: Env, f: Fsm): seq<Event> {
    if Takes(h, e) then Step(f, h.reader.bus).1 else []
  }

  predicate Calm(e: Env) {
    e.online && !e.timeout
  }

  lemma KeptInCodeLow(h: Hw, e: Env, f: Fsm)
    requires Sound(h, f) && Calm(e) && h.ctl.op.OpCodeLow? && !Send(h)
    ensures Sound(Edge(h, e), FsmAfter(h, e, f))
  {}

  lemma KeptByBosCommand(h: Hw, e: Env, f: Fsm)
    requires Sound(h, f) && Calm(e) && h.ctl.op.OpCodeLow? && Send(h) && h.reader.bus % 2 == 1
    ensures Sound(Edge(h, e), FsmAfter(h, e, f))
  {}

  lemma KeptByImageCommand(h: Hw, e: Env, f: Fsm)
    requires Sound(h, f) && Calm(e) && h.ctl.op.OpCodeLow? && Send(h) && h.reader.bus % 2 == 0
    ensures Sound(Edge(h, e), FsmAfter(h, e, f))
  {}

  lemma KeptInCodeHigh(h: Hw, e: Env, f: Fsm)
    requires Sound(h, f) && Calm(e) && h.ctl.op.OpCodeHigh? && !Send(h)
    ensures Sound(Edge(h, e), FsmAfter(h, e, f))
  {}

  lemma KeptBySecondByte(h: Hw, e: Env, f: Fsm)
    requires Sound(h, f) && Calm(e) && h.ctl.op.OpCodeHigh? && Send(h)
    ensures Sound(Edge(h, e), FsmAfter(h, e, f))
  {
    var n := h.reader.bus * 128 + h.ctl.bytes;
    assert h.ctl.bytes % 128 == h.ctl.bytes;
    var c := h.ctl.(op := OpWait, bytes := n, ack := true, transmit := false, nbos := true);
    assert CtlNext(h, e) == c == Edge(h, e).ctl;
    assert Takes(h, e) && FsmAfter(h, e, f) == f.(op := ImageOp(n));
  }

  lemma KeptInWait(h: Hw, e: Env, f: Fsm)
    requires Sound(h, f) && Calm(e) && h.ctl.op.OpWait?
    ensures Sound(Edge(h, e), FsmAfter(h, e, f))
  {}

  lemma KeptInBosPayload(h: Hw, e: Env, f: Fsm)
    requires Sound(h, f) && Calm(e) && h.ctl.op.OpPayload? && !h.ctl.image && h.ctl.bytes != 0
    ensures Sound(Edge(h, e), FsmAfter(h, e, f))
  {}

  lemma KeptAtBosEnd(h: Hw, e: Env, f: Fsm)
    requires Sound(h, f) && Calm(e) && h.ctl.op.OpPayload? && !h.ctl.image && h.ctl.bytes == 0
    ensures Sound(Edge(h, e), FsmAfter(h, e, f))
  {}

  lemma KeptInLiteralPayload(h: Hw, e: Env, f: Fsm)
    requires Sound(h, f) && Calm(e) && h.ctl.op.OpPayload? && h.ctl.image && !h.ctl.dupMode
    ensures Sound(Edge(h, e), FsmAfter(h, e, f))
  {}

  lemma KeptInDupPayload(h: Hw, e: Env, f: Fsm)
    requires Sound(h, f) && Calm(e) && h.ctl.op.OpPayload? && Dup(h.ctl)
    ensures Sound(Edge(h, e), FsmAfter(h, e, f))
  {}

  /** Every clock edge keeps the registers in step with the interpreter. */
  lemma EdgeIsSound(h: Hw, e: Env, f: Fsm)
    requires Sound(h, f) && Calm(e)
    ensures Sound(Edge(h, e), FsmAfter(h, e, f))
  {
    match h.ctl.op
    case OpCodeLow =>
      if !Send(h) {
        KeptInCodeLow(h, e, f);
      } else if h.reader.bus % 2 == 1 {
        KeptByBosCommand(h, e, f);
      } else {
        KeptByImageCommand(h, e, f);
      }
    case OpCodeHigh =>
      if !Send(h) {
        KeptInCodeHigh(h, e, f);
      } else {
        KeptBySecondByte(h, e, f);
      }
    case OpWait => KeptInWait(h, e, f);
    case OpPayload =>
      if !h.ctl.image && h.ctl.bytes != 0 {
        KeptInBosPayload(h, e, f);
      } else if !h.ctl.image {
        KeptAtBosEnd(h, e, f);
      } else if !h.ctl.dupMode {
        KeptInLiteralPayload(h, e, f);
      } else {
        KeptInDupPayload(h, e, f);
      }
  }

  // ---- The registers themselves ----

  /** The display controller and the FIFO reader as clocked registers around the transmitter. */
  class Controller {
    const tx: Transmitter
    var op: OpState
    var image: bool
    var dupMode: bool
    var newMode: bool
    var revMode: bool
    var bytes: nat
    var ack: bool
    var transmit: bool
    var nbos: bool
    var window: nat
    var refill: nat
    var pass: bool
    var bosT: nat
    var nbosT: nat
    var refresh: nat
    var reader: ReadState
    var bus: u8

    function Abs(): Hw
      reads this, tx
    {
      Hw(tx.Abs(), Control(), Window(window, refill, pass), bosT, nbosT, refresh, Reader(reader, bus))
    }

    constructor (data: u8)
      ensures fresh(tx) && Abs() == AfterReset(data)
    {
      tx := new Transmitter();
      op, image, dupMode, newMode, revMode := OpCodeLow, false, false, false, false;
      bytes, ack, transmit, nbos := 0, false, false, true;
      window, refill, pass := 0, WINDOW_INIT_BYTES, false;
      bosT, nbosT, refresh := 0, 0, 0;
      reader, bus := Clear, data;
    }

    /** The window that estimates how much fits into the rest of a display cycle. */
    method PosedgeWindow(e: Env)
      modifies this`window, this`refill, this`pass
      ensures Window(window, refill, pass) == WindowNext(Window(old(window), old(refill), old(pass)), Control(), e)
    {
      if e.reopen || e.sleep {
        pass := true;
        window := refill;
        refill := if e.sleep then WINDOW_INIT_BYTES else 0;
      } else {
        if (newMode && image) || window <= bytes {
          pass := false;
        }
        if e.pseudoAck {
          if window != 0 {
            window := window - 1;
          }
          if refill != BYTES_MAX {
            refill := refill + 1;
          }
        }
      }
    }

    /** The timers of the BOS line and the refresh counter. */
    method PosedgeCounters(e: Env)
      modifies this`bosT, this`nbosT, this`refresh
      ensures bosT == Count(BOS_T_TICKS, old(bosT), !nbos, nbos)
      ensures nbosT == Count(NBOS_T_TICKS, old(nbosT), nbos, !nbos)
      ensures refresh == Count(FULL_REFRESH_BYTES, old(refresh), tx.ack, !e.online || (old(refresh) != FULL_REFRESH_BYTES && !nbos))
    {
      if nbos {
        bosT := 0;
        nbosT := if nbosT != NBOS_T_TICKS then nbosT + 1 else nbosT;
      } else {
        nbosT := 0;
        bosT := if bosT != BOS_T_TICKS then bosT + 1 else bosT;
      }
      var cold := refresh != FULL_REFRESH_BYTES;
      if !e.online || (cold && !nbos) {
        refresh := 0;
      } else if tx.ack && cold {
        refresh := refresh + 1;
      }
    }

    /** The FIFO-reading state machine. */
    method PosedgeReader(e: Env)
      modifies this`reader, this`bus
      ensures Reader(reader, bus) == ReaderNext(Reader(old(reader), old(bus)), ack, e)
    {
      var next := reader;
      match reader {
        case Clear =>
          next := GetData;
        case GetData =>
          if !e.empty {
            bus := e.next;
            next := FifoWait;
          }
        case FifoWait =>
          next := SendData;
        case SendData =>
          if ack {
            next := GetData;
          }
      }
      reader := if e.online then next else Clear;
    }

    function Control(): Ctl
      reads this
    {
      Ctl(op, image, dupMode, newMode, revMode, bytes, ack, transmit, nbos)
    }

    /** OP_CODE_LOW: the first command byte. */
    method CodeLow(i: OpIn) returns (next: OpState)
      requires op.OpCodeLow?
      modifies this`image, this`dupMode, this`newMode, this`revMode
      modifies this`bytes, this`ack, this`transmit, this`nbos
      ensures Control().(op := next) == OpNext(old(Control()), i)
    {
      ack, transmit, nbos := i.send, false, true;
      next := op;
      if i.send {
        if i.data % 2 == 1 {
          image := false;
          bytes := BosCount(i.data);
          dupMode, newMode, revMode := i.data / 128 == 1, i.data / 64 % 2 == 1, i.data / 32 % 2 == 1;
          next := OpWait;
        } else {
          image := true;
          bytes := i.data / 2;
          next := OpCodeHigh;
        }
      }
    }

    /** OP_CODE_HIGH: the upper bits of an image's byte count. */
    method CodeHigh(i: OpIn) returns (next: OpState)
      requires op.OpCodeHigh?
      modifies this`bytes, this`ack, this`transmit, this`nbos
      ensures Control().(op := next) == OpNext(old(Control()), i)
    {
      ack, transmit, nbos := i.send, false, true;
      next := op;
      if i.send {
        bytes := i.data * 128 + bytes % 128;
        next := OpWait;
      }
    }

    /** OP_WAIT: until the payload may start. */
    method Wait(i: OpIn) returns (next: OpState)
      requires op.OpWait?
      modifies this`ack, this`transmit, this`nbos
      ensures Control().(op := next) == OpNext(old(Control()), i)
    {
      ack, transmit, nbos := false, false, true;
      next := op;
      if i.nbosDone && (image || (i.txIdle && i.ready)) && (bytes == 0 || (i.pass && i.send)) {
        next := OpPayload;
      }
    }

    /** OP_PAYLOAD: until the bytes are sent and, after a BOS payload, the pulse is long enough. */
    method Payload(i: OpIn) returns (next: OpState)
      requires op.OpPayload?
      modifies this`bytes, this`ack, this`transmit, this`nbos
      ensures Control().(op := next) == OpNext(old(Control()), i)
    {
      var dup := dupMode && image;
      ack, transmit, nbos := false, false, image;
      next := op;
      if bytes != 0 {
        transmit := i.ready && i.send;
        ack := i.txAck && !dup;
        bytes := bytes - if i.txAck then 1 else 0;
      } else if image || (i.bosDone && i.txIdle) {
        ack := dup;
        next := OpCodeLow;
      }
    }

    /** The operation FSM; a time-out or a disconnection ends the current operation. */
    method PosedgeOp(e: Env, i: OpIn)
      modifies this`op, this`image, this`dupMode, this`newMode, this`revMode
      modifies this`bytes, this`ack, this`transmit, this`nbos
      ensures Control() == Override(OpNext(old(Control()), i), e)
    {
      var next;
      match op {
        case OpCodeLow => next := CodeLow(i);
        case OpCodeHigh => next := CodeHigh(i);
        case OpWait => next := Wait(i);
        case OpPayload => next := Payload(i);
      }
      op := if e.online && !e.timeout then next else OpCodeLow;
    }

    /** The blocks around the operation FSM. */
    method PosedgeRest(e: Env, ghost h: Hw)
      requires h == Abs()
      modifies this`window, this`refill, this`pass, this`bosT, this`nbosT, this`refresh, this`reader, this`bus
      ensures Window(window, refill, pass) == WindowNext(h.win, h.ctl, e)
      ensures bosT == Count(BOS_T_TICKS, h.bosT, !h.ctl.nbos, h.ctl.nbos)
      ensures nbosT == Count(NBOS_T_TICKS, h.nbosT, h.ctl.nbos, !h.ctl.nbos)
      ensures refresh == Count(FULL_REFRESH_BYTES, h.refresh, h.tx.ack, !e.online || (Cold(h) && !h.ctl.nbos))
      ensures Reader(reader, bus) == ReaderNext(h.reader, h.ctl.ack, e)
    {
      PosedgeWindow(e);
      PosedgeCounters(e);
      PosedgeReader(e);
    }

    method Inputs(e: Env) returns (i: OpIn)
      ensures i == OpInputs(Abs(), e)
    {
      i := OpIn(reader.SendData? && !ack, bus, tx.ack, tx.idle, e.ready, pass,
                nbosT == NBOS_T_TICKS, bosT == BOS_T_TICKS);
    }

    /** Everything but the transmitter. */
    method PosedgeBlocks(e: Env, ghost h: Hw)
      requires h == Abs()
      modifies this
      ensures Control() == Override(OpNext(h.ctl, OpInputs(h, e)), e)
      ensures Window(window, refill, pass) == WindowNext(h.win, h.ctl, e)
      ensures bosT == Count(BOS_T_TICKS, h.bosT, !h.ctl.nbos, h.ctl.nbos)
      ensures nbosT == Count(NBOS_T_TICKS, h.nbosT, h.ctl.nbos, !h.ctl.nbos)
      ensures refresh == Count(FULL_REFRESH_BYTES, h.refresh, h.tx.ack, !e.online || (Cold(h) && !h.ctl.nbos))
      ensures Reader(reader, bus) == ReaderNext(h.reader, h.ctl.ack, e)
    {
      var i := Inputs(e);
      PosedgeRest(e, h);
      assert h.ctl == Control();
      PosedgeOp(e, i);
    }

    /** One rising edge of the clock: every block sees the registers as they were. */
    method Posedge(e: Env)
      modifies this, tx
      ensures Abs() == Edge(old(Abs()), e)
    {
      ghost var h := Abs();
      var offered, txData := transmit, Flip(revMode && image, bus);
      assert txData == TxData(h);
      PosedgeBlocks(e, h);
      assert h.tx == tx.Abs();
      tx.Posedge(offered, txData);
      EdgeParts(h, e, OpInputs(h, e), Abs());
    }
  }
}
