/**
 * The clocked controller does what the byte-level interpreter says: over every run, whatever the
 * timers and the display's READY line do, short of a time-out, a disconnection or a reset.
 */
module Refinement {
  import opened Bytes
  import opened CommandFsm
  import opened PrivEye

  // ---- How far the wires are from the interpreter ----

  /** The wires may still owe the fall of the BOS line, or have sent some copies of a repeated byte. */
  datatype Lag = Behind | Ahead(copies: nat, x: Event)

  function Copies(n: nat, x: Event): seq<Event> {
    seq(n, _ => x)
  }

  function LagOf(h: Hw, f: Fsm): Lag
    requires Sound(h, f)
  {
    var c := h.ctl;
    if !c.image && (c.op.OpWait? || (c.op.OpPayload? && c.nbos)) then Behind
    else if c.op.OpPayload? && Dup(c) && f.op.ImagePayload? then Ahead(f.op.left - Rem(h), ImageByte(TxData(h)))
    else Ahead(0, BosBegin)
  }

  ghost predicate Related(lag: Lag, meant: seq<Event>, emitted: seq<Event>) {
    match lag
    case Behind => emitted + [BosBegin] == meant
    case Ahead(n, x) => emitted == meant + Copies(n, x)
  }

  predicate Level(lag: Lag) {
    lag.Ahead? && lag.copies == 0
  }

  /** One clock edge: what goes onto the wires, and what the interpreter means by the byte consumed. */
  ghost predicate Advances(lag: Lag, out: seq<Event>, meant: seq<Event>, lag': Lag) {
    || (out == [] && meant == [] && (lag == lag' || (Level(lag) && Level(lag'))))
    || (out == [] && meant == [BosBegin] && Level(lag) && lag' == Behind)
    || (out == [BosBegin] && meant == [] && lag == Behind && Level(lag'))
    || (|out| == 1 && meant == out && Level(lag) && Level(lag'))
    || (lag.Ahead? && out == [lag.x] && meant == [] && lag' == Ahead(lag.copies + 1, lag.x))
    || (lag.Ahead? && out == [] && meant == Copies(lag.copies, lag.x) && Level(lag'))
  }

  lemma AdvanceRelates(lag: Lag, out: seq<Event>, meant: seq<Event>, lag': Lag,
                       before: seq<Event>, emitted: seq<Event>)
    requires Advances(lag, out, meant, lag') && Related(lag, before, emitted)
    ensures Related(lag', before + meant, emitted + out)
  {
    if lag == Behind {
      assert emitted + out + [BosBegin] == before + meant || emitted + out == before + meant;
    } else if out == [] && meant == Copies(lag.copies, lag.x) && Level(lag') {
    } else if meant == [BosBegin] {
      assert emitted + [BosBegin] == before + [BosBegin];
    } else if lag'.Ahead? && lag'.copies == lag.copies + 1 && out == [lag.x] && meant == [] {
      assert before + Copies(lag.copies, lag.x) + [lag.x] == before + [] + Copies(lag.copies + 1, lag.x);
    } else if |out| == 1 {
      assert emitted + out == before + meant + Copies(0, lag.x);
    } else {
      assert emitted + out == emitted && before + meant == before;
    }
  }

  ghost predicate Moves(h: Hw, e: Env, f: Fsm)
    requires Sound(h, f) && Sound(Edge(h, e), FsmAfter(h, e, f))
  {
    Advances(LagOf(h, f), Emits(h, e), Meant(h, e, f), LagOf(Edge(h, e), FsmAfter(h, e, f)))
  }

  lemma MovesInCodeLow(h: Hw, e: Env, f: Fsm)
    requires Sound(h, f) && Calm(e) && Sound(Edge(h, e), FsmAfter(h, e, f))
    requires h.ctl.op.OpCodeLow?
    ensures Moves(h, e, f)
  {}

  lemma MovesInCodeHigh(h: Hw, e: Env, f: Fsm)
    requires Sound(h, f) && Calm(e) && Sound(Edge(h, e), FsmAfter(h, e, f))
    requires h.ctl.op.OpCodeHigh?
    ensures Moves(h, e, f)
  {}

  lemma MovesInWait(h: Hw, e: Env, f: Fsm)
    requires Sound(h, f) && Calm(e) && Sound(Edge(h, e), FsmAfter(h, e, f))
    requires h.ctl.op.OpWait?
    ensures Moves(h, e, f)
  {}

  lemma MovesInBosPayload(h: Hw, e: Env, f: Fsm)
    requires Sound(h, f) && Calm(e) && Sound(Edge(h, e), FsmAfter(h, e, f))
    requires h.ctl.op.OpPayload? && !h.ctl.image
    ensures Moves(h, e, f)
  {}

  lemma MovesInLiteralPayload(h: Hw, e: Env, f: Fsm)
    requires Sound(h, f) && Calm(e) && Sound(Edge(h, e), FsmAfter(h, e, f))
    requires h.ctl.op.OpPayload? && h.ctl.image && !h.ctl.dupMode
    ensures Moves(h, e, f)
  {}

  lemma MovesInDupPayload(h: Hw, e: Env, f: Fsm)
    requires Sound(h, f) && Calm(e) && Sound(Edge(h, e), FsmAfter(h, e, f))
    requires h.ctl.op.OpPayload? && Dup(h.ctl)
    ensures Moves(h, e, f)
  {}

  lemma EdgeMoves(h: Hw, e: Env, f: Fsm)
    requires Sound(h, f) && Calm(e)
    ensures Sound(Edge(h, e), FsmAfter(h, e, f)) && Moves(h, e, f)
  {
    EdgeIsSound(h, e, f);
    match h.ctl.op
    case OpCodeLow => MovesInCodeLow(h, e, f);
    case OpCodeHigh => MovesInCodeHigh(h, e, f);
    case OpWait => MovesInWait(h, e, f);
    case OpPayload =>
      if !h.ctl.image {
        MovesInBosPayload(h, e, f);
      } else if !h.ctl.dupMode {
        MovesInLiteralPayload(h, e, f);
      } else {
        MovesInDupPayload(h, e, f);
      }
  }

  // ---- The held byte ----

  /** The byte that was popped but does not count as consumed. */
  function Held(h: Hw): seq<u8> {
    if (h.reader.state.FifoWait? || h.reader.state.SendData?) && !Counted(h) then [h.reader.bus] else []
  }

  function Popped(h: Hw, e: Env): seq<u8> {
    if Pops(h, e) then [e.next] else []
  }

  function Taken(h: Hw, e: Env): seq<u8> {
    if Takes(h, e) then [h.reader.bus] else []
  }

  /** No byte is lost or used twice. */
  lemma HeldByte(h: Hw, e: Env, f: Fsm)
    requires Sound(h, f) && Calm(e)
    ensures Held(h) + Popped(h, e) == Taken(h, e) + Held(Edge(h, e))
    ensures Takes(h, e) ==> Held(h) == [h.reader.bus]
  {
    EdgeIsSound(h, e, f);
  }

  // ---- Runs ----

  /** No command is under way and no byte is held. */
  predicate Quiet(h: Hw) {
    h.ctl.op.OpCodeLow? && !h.reader.state.FifoWait? && !h.reader.state.SendData?
  }

  /**
   * The interpreter at the start of the run, the registers, the bytes popped and consumed, and what
   * went onto the wires.
   */
  datatype Run = Run(from: Fsm, h: Hw, popped: seq<u8>, taken: seq<u8>, emitted: seq<Event>)

  function RunEdge(r: Run, e: Env): Run {
    Run(r.from, Edge(r.h, e), r.popped + Popped(r.h, e), r.taken + Taken(r.h, e), r.emitted + Emits(r.h, e))
  }

  function RunAll(r: Run, es: seq<Env>): Run
    decreases |es|
  {
    if es == [] then r else RunAll(RunEdge(r, es[0]), es[1..])
  }

  /** The interpreter that waits for a command with the modes in the registers. */
  function FsmOf(h: Hw): Fsm {
    Fsm(CodeLow, h.ctl.dupMode, h.ctl.newMode, h.ctl.revMode)
  }

  /** Nothing is under way: as after reset, and as after being offline for a while. */
  ghost predicate Rested(h: Hw) {
    Sound(h, FsmOf(h)) && Quiet(h) && h.tx.ticks == 0
  }

  /** A run begins. */
  function Start(h: Hw): Run {
    Run(FsmOf(h), h, [], [], [])
  }

  ghost predicate InStep(r: Run) {
    var (f, meant) := Interpret(r.from, r.taken);
    && Sound(r.h, f)
    && Related(LagOf(r.h, f), meant, r.emitted)
    && r.popped == r.taken + Held(r.h)
  }

  lemma StartInStep(h: Hw)
    requires Rested(h)
    ensures InStep(Start(h))
  {
    assert Interpret(FsmOf(h), []) == (FsmOf(h), []);
    assert Copies(0, BosBegin) == [];
  }

  lemma InterpretSnoc(f: Fsm, s: seq<u8>, b: u8)
    ensures var (g, meant) := Interpret(f, s);
            Interpret(f, s + [b]) == (Step(g, b).0, meant + Step(g, b).1)
  {
    InterpretConcat(f, s, [b]);
    var g := Interpret(f, s).0;
    assert [b][1..] == [];
    assert Step(g, b).1 + [] == Step(g, b).1;
    assert Interpret(g, [b]) == (Step(g, b).0, Step(g, b).1);
  }

  lemma EdgeInStep(r: Run, e: Env)
    requires InStep(r) && Calm(e)
    ensures InStep(RunEdge(r, e))
  {
    var (f, meant) := Interpret(r.from, r.taken);
    if Takes(r.h, e) {
      InterpretSnoc(r.from, r.taken, r.h.reader.bus);
    } else {
      assert r.taken + [] == r.taken && meant + [] == meant;
    }
    EdgeMoves(r.h, e, f);
    var h' := Edge(r.h, e);
    var f' := FsmAfter(r.h, e, f);
    AdvanceRelates(LagOf(r.h, f), Emits(r.h, e), Meant(r.h, e, f), LagOf(h', f'), meant, r.emitted);
    HeldByte(r.h, e, f);
    assert r.popped + Popped(r.h, e) == r.taken + (Held(r.h) + Popped(r.h, e));
    assert r.taken + Taken(r.h, e) + Held(h') == r.taken + (Taken(r.h, e) + Held(h'));
  }

  predicate Undisturbed(es: seq<Env>) {
    forall i | 0 <= i < |es| :: Calm(es[i])
  }

  lemma {:induction false} RunInStep(r: Run, es: seq<Env>)
    requires InStep(r) && Undisturbed(es)
    ensures InStep(RunAll(r, es))
    decreases |es|
  {
    if es != [] {
      EdgeInStep(r, es[0]);
      RunInStep(RunEdge(r, es[0]), es[1..]);
    }
  }

  /** What is on the wires is never more than what the bytes from the FIFO mean. */
  lemma InStepIsPrefix(r: Run)
    requires InStep(r)
    ensures r.emitted <= Interpret(r.from, r.popped).1
  {
    var (f, meant) := Interpret(r.from, r.taken);
    InterpretConcat(r.from, r.taken, Held(r.h));
    if r.h.ctl.op.OpPayload? && Dup(r.h.ctl) && f.op.ImagePayload? && f.op.left > Rem(r.h) {
      assert Held(r.h) == [r.h.reader.bus];
      InterpretSnoc(r.from, r.taken, r.h.reader.bus);
      var x := ImageByte(TxData(r.h));
      var n := f.op.left - Rem(r.h);
      assert Copies(n, x) <= Step(f, r.h.reader.bus).1;
    } else if LagOf(r.h, f) != Behind {
      assert r.emitted == meant;
    }
  }

  lemma {:induction false} RunKeepsFrom(r: Run, es: seq<Env>)
    ensures RunAll(r, es).from == r.from
    decreases |es|
  {
    if es != [] {
      RunKeepsFrom(RunEdge(r, es[0]), es[1..]);
    }
  }

  /** From anywhere in a run. */
  lemma InStepRun(r: Run, es: seq<Env>)
    requires InStep(r) && Undisturbed(es)
    ensures var s := RunAll(r, es);
            var (f, meant) := Interpret(r.from, s.popped);
            && InStep(s) && s.from == r.from
            && s.emitted <= meant
            && (Quiet(s.h) ==> s.emitted == meant && f == FsmOf(s.h))
  {
    RunInStep(r, es);
    RunKeepsFrom(r, es);
    var s := RunAll(r, es);
    InStepIsPrefix(s);
    if Quiet(s.h) {
      assert s.popped == s.taken;
      assert Copies(0, BosBegin) == [];
    }
  }

  /**
   * From any state of rest, as after reset and any clocks offline, over every undisturbed run: the
   * wires never carry anything but what the interpreter makes of the bytes read from the FIFO, in the
   * same order; and at rest they have carried all of it.
   */
  lemma WiresFollowInterpreter(h: Hw, es: seq<Env>)
    requires Rested(h) && Undisturbed(es)
    ensures var r := RunAll(Start(h), es);
            var (f, meant) := Interpret(FsmOf(h), r.popped);
            && r.emitted <= meant
            && (Quiet(r.h) ==> r.emitted == meant && f == FsmOf(r.h))
  {
    StartInStep(h);
    InStepRun(Start(h), es);
  }
}
