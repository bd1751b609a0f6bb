/**
 * The gate in front of payloads in fpga/priveye.v: a new-frame image starts only at the start of a
 * display cycle, any other payload only if it fits what is left of the cycle.
 */
module FrameGate {
  import opened Bytes
  import opened PrivEye

  /** A new display cycle begins, or the display sleeps. */
  predicate Opens(e: Env) {
    e.reopen || e.sleep
  }

  /** The clock edge lets a new-frame image with bytes to send out of OP_WAIT. */
  predicate Starts(h: Hw, e: Env) {
    h.ctl.op.OpWait? && NewImage(h.ctl) && h.ctl.bytes > 0 && Edge(h, e).ctl.op.OpPayload?
  }

  /** Only an image command has a second command byte. */
  predicate Gated(h: Hw) {
    h.ctl.op.OpCodeHigh? ==> h.ctl.image
  }

  /** A new-frame image that waits with the gate open. */
  predicate Armed(h: Hw) {
    h.ctl.op.OpWait? && NewImage(h.ctl) && h.win.pass
  }

  lemma ArmedByOpening(h: Hw, e: Env)
    requires Gated(h)
    ensures Gated(Edge(h, e))
    ensures Armed(Edge(h, e)) ==> Opens(e)
    ensures Starts(h, e) ==> Armed(h)
  {}

  /** A new-frame image starts only on the clock edge right after one on which a cycle began (or in sleep). */
  lemma StartFollowsOpening(h: Hw, e: Env, e': Env)
    requires Gated(h) && Starts(Edge(h, e), e')
    ensures Opens(e)
  {
    ArmedByOpening(h, e);
    ArmedByOpening(Edge(h, e), e');
  }

  function CountStarts(h: Hw, es: seq<Env>): nat
    decreases |es|
  {
    if es == [] then 0
    else (if Starts(h, es[0]) then 1 else 0) + CountStarts(Edge(h, es[0]), es[1..])
  }

  function CountOpens(es: seq<Env>): nat
    decreases |es|
  {
    if es == [] then 0 else (if Opens(es[0]) then 1 else 0) + CountOpens(es[1..])
  }

  lemma {:induction false} StartsWithinOpens(h: Hw, es: seq<Env>)
    requires Gated(h)
    ensures CountStarts(h, es) <= CountOpens(es) + if Armed(h) then 1 else 0
    decreases |es|
  {
    if es != [] {
      ArmedByOpening(h, es[0]);
      StartsWithinOpens(Edge(h, es[0]), es[1..]);
    }
  }

  /**
   * From reset, whatever happens on the inputs, time-outs and disconnections included: never more
   * new-frame images than openings, so while the display is awake at most one per display cycle.
   */
  lemma OneFramePerCycle(bus: u8, es: seq<Env>)
    ensures CountStarts(AfterReset(bus), es) <= CountOpens(es)
  {
    StartsWithinOpens(AfterReset(bus), es);
  }

  // ---- The window ----

  /**
   * Any payload with bytes starts only right after an opening, or when it is not a new frame and its
   * whole byte count was smaller than the window one clock before. The gate is computed one clock
   * late, but a payload never starts on the stale value: the byte count is complete when `send` rises.
   */
  lemma PayloadFitsWindow(h: Hw, e: Env, e': Env)
    requires var w := Edge(h, e);
             w.ctl.op.OpWait? && w.ctl.bytes > 0 && Edge(w, e').ctl.op.OpPayload?
    ensures Opens(e) || (!NewImage(h.ctl) && h.ctl.bytes == Edge(h, e).ctl.bytes && h.ctl.bytes < h.win.window)
  {
    StartNeedsGate(Edge(h, e), e');
    WaitsFullCount(h, e);
  }

  lemma StartNeedsGate(w: Hw, e: Env)
    requires w.ctl.op.OpWait? && w.ctl.bytes > 0 && Edge(w, e).ctl.op.OpPayload?
    ensures w.win.pass && Send(w)
  {
    assert CtlNext(w, e).op.OpPayload?;
  }

  /** When `send` is up in OP_WAIT, the byte count has been complete for a clock. */
  lemma WaitsFullCount(h: Hw, e: Env)
    requires Edge(h, e).ctl.op.OpWait? && Send(Edge(h, e))
    ensures h.ctl.op.OpWait? && h.ctl.bytes == Edge(h, e).ctl.bytes
  {
    assert Edge(h, e).ctl == Override(CtlNext(h, e), e);
    WaitKeepsCount(h.ctl, OpInputs(h, e));
  }

  lemma WaitKeepsCount(c: Ctl, i: OpIn)
    requires OpNext(c, i).op.OpWait? && !OpNext(c, i).ack
    ensures c.op.OpWait? && c.bytes == OpNext(c, i).bytes
  {}

  /** Byte slots that went by. */
  function Slots(es: seq<Env>): nat {
    if es == [] then 0 else (if es[0].pseudoAck then 1 else 0) + Slots(es[1..])
  }

  lemma {:induction false} WindowShrinks(h: Hw, es: seq<Env>)
    requires CountOpens(es) == 0 && h.win.refill <= BYTES_MAX
    ensures var w := After(h, es).win;
            && w.window == (if h.win.window > Slots(es) then h.win.window - Slots(es) else 0)
            && w.refill == (if h.win.refill + Slots(es) < BYTES_MAX then h.win.refill + Slots(es) else BYTES_MAX)
    decreases |es|
  {
    if es != [] {
      WindowShrinks(Edge(h, es[0]), es[1..]);
    }
  }

  /** When a cycle begins, the window is the number of byte slots of the cycle before it. */
  lemma WindowIsLastCycle(h: Hw, e: Env, es: seq<Env>, e': Env)
    requires e.reopen && !e.sleep && CountOpens(es) == 0 && Opens(e')
    ensures Edge(After(Edge(h, e), es), e').win.window == if Slots(es) < 32767 then Slots(es) else 32767
  {
    WindowShrinks(Edge(h, e), es);
  }

  /** After sleep, the first cycle's window is the initial one and the slots that went by. */
  lemma WindowAfterSleep(h: Hw, e: Env, es: seq<Env>, e': Env)
    requires e.sleep && CountOpens(es) == 0 && Opens(e')
    ensures Edge(After(Edge(h, e), es), e').win.window
         == if 10000 + Slots(es) < 32767 then 10000 + Slots(es) else 32767
  {
    WindowShrinks(Edge(h, e), es);
  }

  /** So is the first one after reset. */
  lemma WindowAfterReset(bus: u8, es: seq<Env>, e: Env)
    requires CountOpens(es) == 0 && Opens(e)
    ensures Edge(After(AfterReset(bus), es), e).win.window
         == if 10000 + Slots(es) < 32767 then 10000 + Slots(es) else 32767
  {
    WindowShrinks(AfterReset(bus), es);
  }

  /**
   * Within a cycle: a payload with bytes that starts without an opening right before it is smaller
   * than what is left of the window with which the cycle began, one clock before.
   */
  lemma PayloadFitsRest(h: Hw, es: seq<Env>, e: Env, e': Env)
    requires CountOpens(es) == 0 && h.win.refill <= BYTES_MAX && !Opens(e)
    requires var w := Edge(After(h, es), e);
             w.ctl.op.OpWait? && w.ctl.bytes > 0 && Edge(w, e').ctl.op.OpPayload?
    ensures Edge(After(h, es), e).ctl.bytes + Slots(es) < h.win.window
  {
    WindowShrinks(h, es);
    PayloadFitsWindow(After(h, es), e, e');
  }
}
