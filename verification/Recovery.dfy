/**
 * What holds of the controller's registers in every run, time-outs and disconnections included, and
 * how it comes to rest while the display is offline.
 */
module Recovery {
  import opened Bytes
  import opened CommandFsm
  import opened Transmitter
  import opened PrivEye
  import opened Refinement

  /** The counters are in range, and the transmitter acknowledges each byte once. */
  ghost predicate Basic(h: Hw) {
    && h.tx.ticks < 16 && (h.tx.ack <==> h.tx.ticks == 1) && (h.tx.idle ==> h.tx.ticks == 0)
    && h.bosT <= BOS_T_TICKS && h.nbosT <= NBOS_T_TICKS && (h.nbosT > 0 ==> h.bosT == 0)
    && h.refresh <= FULL_REFRESH_BYTES
  }

  lemma BasicKept(h: Hw, e: Env)
    requires Basic(h)
    ensures Basic(Edge(h, e))
  {}

  lemma {:induction false} BasicAlways(h: Hw, es: seq<Env>)
    requires Basic(h)
    ensures Basic(After(h, es))
    decreases |es|
  {
    if es != [] {
      BasicKept(h, es[0]);
      BasicAlways(Edge(h, es[0]), es[1..]);
    }
  }

  // ---- Offline ----

  predicate Offline(es: seq<Env>) {
    forall i | 0 <= i < |es| :: !es[i].online
  }

  /** The command is dropped, nothing is read, and nothing new is sent; a byte may still be on its way. */
  predicate Down(h: Hw) {
    && h.ctl.op.OpCodeLow? && h.reader.state.Clear?
    && !h.ctl.ack && !h.ctl.transmit && h.ctl.nbos
  }

  function Remaining(h: Hw): nat
    requires h.tx.ticks < 16
  {
    if h.tx.ticks == 0 then 0 else 16 - h.tx.ticks
  }

  lemma FirstEdges(h: Hw, e: Env, e': Env)
    requires Basic(h) && !e.online && !e'.online
    ensures var h' := Edge(Edge(h, e), e');
            Basic(h') && Down(h') && h'.refresh == 0 && FsmOf(h') == FsmOf(Edge(h, e))
  {
    var g := Edge(h, e);
    BasicKept(h, e);
    assert g.ctl.op.OpCodeLow? && g.reader.state.Clear? && g.refresh == 0;
    BasicKept(g, e');
  }

  lemma DownStays(h: Hw, e: Env)
    requires Basic(h) && Down(h) && !e.online
    ensures var h' := Edge(h, e);
            && Basic(h') && Down(h') && h'.refresh == 0 && FsmOf(h') == FsmOf(h)
            && Remaining(h') == if Remaining(h) == 0 then 0 else Remaining(h) - 1
  {
    BasicKept(h, e);
  }

  lemma {:induction false} DownSettles(h: Hw, es: seq<Env>)
    requires Basic(h) && Down(h) && Offline(es) && |es| >= Remaining(h) && h.refresh == 0
    ensures var h' := After(h, es);
            Basic(h') && Down(h') && h'.tx.ticks == 0 && h'.refresh == 0 && FsmOf(h') == FsmOf(h)
    decreases |es|
  {
    if es != [] {
      DownStays(h, es[0]);
      DownSettles(Edge(h, es[0]), es[1..]);
    }
  }

  lemma DownIsRested(h: Hw)
    requires Basic(h) && Down(h) && h.tx.ticks == 0
    ensures Rested(h)
  {}

  /** Edges until the display has been offline long enough for the byte under way to be shifted out. */
  const SETTLE := 17

  /**
   * Whatever the registers held, after `SETTLE` clocks offline the controller waits for a command,
   * the refresh counter is zero, and the FIFO is being cleared: a new run begins. Only the sticky
   * modes are left, and every packet of the driver sets them afresh.
   */
  lemma OfflineRests(h: Hw, es: seq<Env>)
    requires Basic(h) && Offline(es) && |es| >= SETTLE
    ensures var h' := After(h, es);
            Rested(h') && h'.reader.state.Clear? && h'.refresh == 0
  {
    var g := Edge(Edge(h, es[0]), es[1]);
    FirstEdges(h, es[0], es[1]);
    assert es[1..][0] == es[1] && es[1..][1..] == es[2..];
    assert After(h, es) == After(g, es[2..]);
    DownSettles(g, es[2..]);
    DownIsRested(After(h, es));
  }

  /** From reset, in any run that ends with such a stretch offline. */
  lemma OfflineRecovers(bus: u8, before: seq<Env>, offline: seq<Env>)
    requires Offline(offline) && |offline| >= SETTLE
    ensures var h := After(After(AfterReset(bus), before), offline);
            Rested(h) && h.reader.state.Clear? && Cold(h)
  {
    BasicAlways(AfterReset(bus), before);
    OfflineRests(After(AfterReset(bus), before), offline);
  }

  lemma {:induction false} DownRests(h: Hw, es: seq<Env>)
    requires Basic(h) && Down(h) && h.tx.ticks == 0 && Offline(es) && h.refresh == 0
    ensures var h' := After(h, es);
            Basic(h') && Down(h') && h'.tx.ticks == 0 && FsmOf(h') == FsmOf(h) && h'.refresh == 0
    decreases |es|
  {
    if es != [] {
      DownStays(h, es[0]);
      DownRests(Edge(h, es[0]), es[1..]);
    }
  }

  /**
   * Reset ends offline: the display counts as absent until READY has been seen. After any number of
   * clocks offline, none or many, the controller is still at rest as after the reset.
   */
  lemma ResetOfflineRests(bus: u8, es: seq<Env>)
    requires Offline(es)
    ensures var h := After(AfterReset(bus), es);
            Rested(h) && FsmOf(h) == INITIAL && h.reader.state.Clear? && h.refresh == 0
  {
    DownRests(AfterReset(bus), es);
    DownIsRested(After(AfterReset(bus), es));
  }

  // ---- Time-outs ----

  /** A time-out, like a disconnection, ends whatever operation was under way. */
  lemma TimeoutEndsOperation(h: Hw, e: Env)
    requires e.timeout || !e.online
    ensures Edge(h, e).ctl.op.OpCodeLow?
  {}

  /** The bytes taken as commands on the clock after a time-out and on the next. */
  function TakenAfterTimeout(g: Hw, e: Env): seq<u8> {
    if Send(g) then [g.reader.bus] else if Send(Edge(g, e)) then [Edge(g, e).reader.bus] else []
  }

  /** The run of the interpreter that begins at `g`, two clocks later. */
  function Resumed(g: Hw, e1: Env, e2: Env): Run {
    var h := Edge(Edge(g, e1), e2);
    var taken := TakenAfterTimeout(g, e1);
    Run(FsmOf(g), h, taken + Held(h), taken, [])
  }

  lemma ResumesWithNothing(g: Hw, e1: Env, e2: Env)
    requires Basic(g) && g.ctl.op.OpCodeLow? && Calm(e1) && Calm(e2)
    requires !Send(g) && !Send(Edge(g, e1))
    ensures InStep(Resumed(g, e1, e2))
  {
    BasicKept(g, e1);
    BasicKept(Edge(g, e1), e2);
    assert Interpret(FsmOf(g), []) == (FsmOf(g), []);
  }

  lemma OneByte(f: Fsm, b: u8)
    requires f.op.CodeLow?
    ensures Interpret(f, [b]) == Step(f, b)
  {
    InterpretCons(f, b, []);
    assert [b] + [] == [b] && Step(f, b).1 + [] == Step(f, b).1;
  }

  /** A command byte taken on the next clock: after one more, the registers agree with the interpreter. */
  lemma SoundAtOnce(g: Hw, e1: Env, e2: Env)
    requires Basic(g) && g.ctl.op.OpCodeLow? && Calm(e1) && Calm(e2) && Send(g)
    ensures var h, f := Edge(Edge(g, e1), e2), Step(FsmOf(g), g.reader.bus).0;
            Sound(h, f) && Held(h) == [] && LagOf(h, f) == if g.reader.bus % 2 == 1 then Behind else Ahead(0, BosBegin)
  {
    if g.reader.bus % 2 == 1 {
      SoundAfterBos(g, e1, e2);
    } else {
      SoundAfterImage(g, e1, e2);
    }
  }

  lemma SoundAfterBos(g: Hw, e1: Env, e2: Env)
    requires Basic(g) && g.ctl.op.OpCodeLow? && Calm(e1) && Calm(e2) && Send(g) && g.reader.bus % 2 == 1
    ensures var h, f := Edge(Edge(g, e1), e2), Step(FsmOf(g), g.reader.bus).0;
            Sound(h, f) && Held(h) == [] && LagOf(h, f) == Behind
  {
    BasicKept(g, e1);
    BasicKept(Edge(g, e1), e2);
  }

  lemma SoundAfterImage(g: Hw, e1: Env, e2: Env)
    requires Basic(g) && g.ctl.op.OpCodeLow? && Calm(e1) && Calm(e2) && Send(g) && g.reader.bus % 2 == 0
    ensures var h, f := Edge(Edge(g, e1), e2), Step(FsmOf(g), g.reader.bus).0;
            Sound(h, f) && Held(h) == [] && LagOf(h, f) == Ahead(0, BosBegin)
  {
    BasicKept(g, e1);
    BasicKept(Edge(g, e1), e2);
  }

  lemma SoundNext(g: Hw, e1: Env, e2: Env)
    requires Basic(g) && g.ctl.op.OpCodeLow? && Calm(e1) && Calm(e2) && !Send(g) && Send(Edge(g, e1))
    ensures var h, b := Edge(Edge(g, e1), e2), Edge(g, e1).reader.bus;
            var f := Step(FsmOf(g), b).0;
            Sound(h, f) && Held(h) == [] && LagOf(h, f) == if b % 2 == 1 then Behind else Ahead(0, BosBegin)
  {
    BasicKept(g, e1);
    BasicKept(Edge(g, e1), e2);
  }

  lemma CommandInStep(f: Fsm, h: Hw, b: u8)
    requires f.op.CodeLow? && Sound(h, Step(f, b).0) && Held(h) == []
    requires LagOf(h, Step(f, b).0) == if b % 2 == 1 then Behind else Ahead(0, BosBegin)
    ensures InStep(Run(f, h, [b] + Held(h), [b], []))
  {
    OneByte(f, b);
    assert [] + [BosBegin] == [BosBegin] && Copies(0, BosBegin) == [];
  }

  lemma OutsidePayload(c: Ctl, i: OpIn)
    requires !c.op.OpPayload?
    ensures OpNext(c, i).nbos && !OpNext(c, i).transmit
    ensures c.op.OpCodeLow? ==> !OpNext(c, i).op.OpPayload?
  {}

  /** Outside a payload the BOS line is high, and nothing is offered to the transmitter. */
  lemma IdleLine(h: Hw, e: Env)
    requires !h.ctl.op.OpPayload?
    ensures Edge(h, e).ctl.nbos && !Edge(h, e).ctl.transmit
    ensures h.ctl.op.OpCodeLow? ==> !Edge(h, e).ctl.op.OpPayload?
  {
    OutsidePayload(h.ctl, OpInputs(h, e));
  }

  lemma QuietEdge(h: Hw, e: Env)
    requires Edge(h, e).ctl.nbos
    ensures Emits(h, e) == if Latches(h.tx, h.ctl.transmit) then [Labelled(h.ctl.nbos, TxData(h))] else []
  {}

  lemma NothingOffered(g: Hw, e1: Env, e2: Env)
    requires g.ctl.op.OpCodeLow?
    ensures Emits(g, e1) != [] ==> Emits(g, e1) == [Labelled(g.ctl.nbos, TxData(g))]
    ensures Emits(Edge(g, e1), e2) == []
  {
    IdleLine(g, e1);
    IdleLine(Edge(g, e1), e2);
    QuietEdge(g, e1);
    QuietEdge(Edge(g, e1), e2);
  }

  /**
   * However an operation ended, by a time-out or a disconnection, and whatever it was: two clocks
   * later the controller is in step with an interpreter that waited for a command, with the modes
   * then in the registers, and has read the bytes taken since as commands. At most one byte of the
   * operation that was cut off still goes onto the wires, and no BOS sequence.
   */
  lemma TimeoutResumes(h: Hw, e: Env, e1: Env, e2: Env)
    requires Basic(h) && (e.timeout || !e.online) && Calm(e1) && Calm(e2)
    ensures var g := Edge(h, e);
            && InStep(Resumed(g, e1, e2)) && Resumed(g, e1, e2).from == FsmOf(g)
            && (Emits(g, e1) != [] ==> Emits(g, e1) == [Labelled(g.ctl.nbos, TxData(g))])
            && Emits(Edge(g, e1), e2) == []
  {
    var g := Edge(h, e);
    TimeoutEndsOperation(h, e);
    BasicKept(h, e);
    NothingOffered(g, e1, e2);
    if Send(g) {
      SoundAtOnce(g, e1, e2);
      CommandInStep(FsmOf(g), Edge(Edge(g, e1), e2), g.reader.bus);
    } else if Send(Edge(g, e1)) {
      SoundNext(g, e1, e2);
      CommandInStep(FsmOf(g), Edge(Edge(g, e1), e2), Edge(g, e1).reader.bus);
    } else {
      ResumesWithNothing(g, e1, e2);
    }
  }

  /**
   * So after any run with time-outs and disconnections, once they stop: the wires carry a prefix of
   * what the interpreter means by the bytes taken since the last of them, and at rest all of it.
   */
  lemma WiresAfterTimeout(bus: u8, before: seq<Env>, e: Env, e1: Env, e2: Env, es: seq<Env>)
    requires (e.timeout || !e.online) && Calm(e1) && Calm(e2) && Undisturbed(es)
    ensures var g := Edge(After(AfterReset(bus), before), e);
            var r := RunAll(Resumed(g, e1, e2), es);
            var (f, meant) := Interpret(FsmOf(g), r.popped);
            r.emitted <= meant && (Quiet(r.h) ==> r.emitted == meant && f == FsmOf(r.h))
  {
    var h := After(AfterReset(bus), before);
    BasicAlways(AfterReset(bus), before);
    TimeoutResumes(h, e, e1, e2);
    InStepRun(Resumed(Edge(h, e), e1, e2), es);
  }
}
