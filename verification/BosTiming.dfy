/** How long the BOS line is low and high: the two tick parameters of fpga/priveye.v:34-35. */
module BosTiming {
  import opened CommandFsm
  import opened PrivEye

  /** The line is at `level` before and after each of the clock edges, none of which is disturbed. */
  predicate Holds(h: Hw, es: seq<Env>, level: bool)
    decreases |es|
  {
    h.ctl.nbos == level && (es == [] || (Calm(es[0]) && Holds(Edge(h, es[0]), es[1..], level)))
  }

  /** What is known at the end of such a stretch: the state before it, and the counter that was running. */
  ghost predicate Counted(h: Hw, es: seq<Env>, level: bool, b: Hw, e: Env, g: Fsm) {
    && es != [] && Calm(e) && Sound(b, g) && After(h, es) == Edge(b, e) && b.ctl.nbos == level
    && (!level ==> b.bosT <= h.bosT + |es| - 1)
    && (level ==> b.nbosT <= h.nbosT + |es| - 1)
  }

  lemma {:induction false} LastStep(h: Hw, f: Fsm, es: seq<Env>, level: bool) returns (b: Hw, e: Env, g: Fsm)
    requires Sound(h, f) && Holds(h, es, level) && es != []
    ensures Counted(h, es, level, b, e, g)
    decreases |es|
  {
    var h' := Edge(h, es[0]);
    EdgeIsSound(h, es[0], f);
    if |es| == 1 {
      b, e, g := h, es[0], f;
    } else {
      b, e, g := LastStep(h', FsmAfter(h, es[0], f), es[1..], level);
    }
  }

  lemma {:induction false} StaysSound(h: Hw, f: Fsm, es: seq<Env>, level: bool) returns (g: Fsm)
    requires Sound(h, f) && Holds(h, es, level)
    ensures Sound(After(h, es), g) && After(h, es).ctl.nbos == level
    decreases |es|
  {
    g := f;
    if es != [] {
      EdgeIsSound(h, es[0], f);
      g := StaysSound(Edge(h, es[0]), FsmAfter(h, es[0], f), es[1..], level);
    }
  }

  /** The line falls in the first clock of a BOS payload, and the pulse counter then starts at zero. */
  lemma LineFalls(h: Hw, e: Env)
    requires Framed(h) && Paced(h) && Calm(e) && h.ctl.nbos && !Edge(h, e).ctl.nbos
    ensures h.ctl.op.OpPayload? && !h.ctl.image && Edge(h, e).bosT == 0 && Edge(h, e).ctl.op.OpPayload?
  {}

  /** It rises in the clock after the payload has ended. */
  lemma LineRises(h: Hw, e: Env)
    requires Framed(h) && Calm(e) && !h.ctl.nbos && Edge(h, e).ctl.nbos
    ensures h.ctl.op.OpCodeLow? && Edge(h, e).nbosT == 0 && !Edge(h, e).ctl.op.OpPayload?
  {}

  lemma PayloadEnds(h: Hw, e: Env)
    requires Framed(h) && Calm(e) && !h.ctl.nbos && !Edge(h, e).ctl.nbos && Edge(h, e).ctl.op.OpCodeLow?
    ensures h.bosT == BOS_T_TICKS
  {}

  lemma PayloadBegins(h: Hw, e: Env)
    requires Framed(h) && Calm(e) && h.ctl.nbos && Edge(h, e).ctl.nbos
    requires Edge(h, e).ctl.op.OpPayload? && !Edge(h, e).ctl.image
    ensures h.nbosT == NBOS_T_TICKS
  {}

  /** A BOS pulse is longer than `BOS_T_TICKS` clocks. */
  lemma PulseWidth(h: Hw, f: Fsm, fall: Env, es: seq<Env>, rise: Env)
    requires Sound(h, f) && Calm(fall) && Calm(rise)
    requires h.ctl.nbos && Holds(Edge(h, fall), es, false) && Edge(After(Edge(h, fall), es), rise).ctl.nbos
    ensures |es| > BOS_T_TICKS == 4
  {
    EdgeIsSound(h, fall, f);
    LineFalls(h, fall);
    PulseLasts(Edge(h, fall), FsmAfter(h, fall, f), es, rise);
  }

  lemma PulseLasts(h: Hw, f: Fsm, es: seq<Env>, rise: Env)
    requires Sound(h, f) && Calm(rise) && h.bosT == 0 && h.ctl.op.OpPayload?
    requires Holds(h, es, false) && Edge(After(h, es), rise).ctl.nbos
    ensures |es| > BOS_T_TICKS
  {
    var g := StaysSound(h, f, es, false);
    LineRises(After(h, es), rise);
    if es != [] {
      var b, e, g' := LastStep(h, f, es, false);
      PayloadEnds(b, e);
    }
  }

  /** Between two BOS pulses the line is high for longer than `NBOS_T_TICKS` clocks. */
  lemma GapWidth(h: Hw, f: Fsm, rise: Env, es: seq<Env>, fall: Env)
    requires Sound(h, f) && Calm(rise) && Calm(fall)
    requires !h.ctl.nbos && Holds(Edge(h, rise), es, true) && !Edge(After(Edge(h, rise), es), fall).ctl.nbos
    ensures |es| > NBOS_T_TICKS == 4
  {
    EdgeIsSound(h, rise, f);
    LineRises(h, rise);
    GapLasts(Edge(h, rise), FsmAfter(h, rise, f), es, fall);
  }

  lemma GapLasts(h: Hw, f: Fsm, es: seq<Env>, fall: Env)
    requires Sound(h, f) && Calm(fall) && h.nbosT == 0 && !h.ctl.op.OpPayload?
    requires Holds(h, es, true) && !Edge(After(h, es), fall).ctl.nbos
    ensures |es| > NBOS_T_TICKS
  {
    var g := StaysSound(h, f, es, true);
    LineFalls(After(h, es), fall);
    if es != [] {
      var b, e, g' := LastStep(h, f, es, true);
      PayloadBegins(b, e);
    }
  }
}
