/**
 * The controller never gets stuck: only so many clocks go by before a byte is consumed or something
 * goes onto the wires, not counting clocks on which the display is not ready, a byte is needed that
 * the FIFO does not have, or a payload that could start waits for the next display cycle. So every
 * stream of bytes is consumed, and if it ends, the controller comes to rest.
 */
module Progress {
  import opened Bytes
  import opened CommandFsm
  import opened PrivEye
  import opened Refinement
  import opened FrameGate

  /** Everything is there for a payload with bytes to start, but perhaps the gate is closed. */
  predicate Waiting(h: Hw) {
    && h.ctl.op.OpWait? && h.ctl.bytes > 0 && Send(h) && h.nbosT == NBOS_T_TICKS
    && (h.ctl.image || h.tx.idle)
  }

  /** The operation needs another byte; otherwise it only has to end. */
  predicate NeedsByte(h: Hw) {
    h.ctl.op.OpCodeLow? || h.ctl.op.OpCodeHigh? || h.ctl.bytes > 0
  }

  /** A clock edge that nothing outside the controller holds up. */
  predicate Good(h: Hw, e: Env) {
    && Calm(e) && e.ready && (Waiting(h) ==> h.win.pass)
    && (h.reader.state.GetData? && e.empty ==> !NeedsByte(h))
  }

  /** Clocks until the reader offers a fresh byte. */
  function UntilSend(h: Hw): nat {
    match h.reader.state
    case Clear => 3
    case GetData => 2
    case FifoWait => 1
    case SendData => if h.ctl.ack then 3 else if h.tx.ack && !Dup(h.ctl) then 4 else 0
  }

  /** Clocks until the transmitter can take a byte. */
  function UntilFree(h: Hw): nat
    requires h.tx.ticks < 16
  {
    if h.tx.ticks == 0 then 0 else 16 - h.tx.ticks
  }

  function One(p: bool): nat {
    if p then 1 else 0
  }

  /** A bound on the clocks that pass without effect. */
  function Rank(h: Hw): nat
    requires h.tx.ticks < 16 && h.nbosT <= NBOS_T_TICKS && h.bosT <= BOS_T_TICKS
  {
    match h.ctl.op
    case OpCodeLow => UntilSend(h)
    case OpCodeHigh => UntilSend(h)
    case OpWait =>
      40 + UntilSend(h)
      + if h.ctl.image then 0 else NBOS_T_TICKS - h.nbosT + UntilFree(h) + One(!h.tx.idle)
    case OpPayload =>
      if h.ctl.bytes > 0 then 10 + UntilFree(h) + UntilSend(h) + One(!h.ctl.transmit)
      else if h.ctl.image then 1 + UntilSend(h)
      else 5 + BOS_T_TICKS - h.bosT + UntilFree(h) + One(!h.tx.idle)
  }

  const PATIENCE := 65

  /** The edge has an effect, or the rank does not rise; on a good edge it falls. */
  ghost predicate Moving(h: Hw, e: Env, f: Fsm)
    requires Sound(h, f) && Sound(Edge(h, e), FsmAfter(h, e, f))
  {
    || Takes(h, e) || Emits(h, e) != []
    || (Rank(Edge(h, e)) <= Rank(h) && (Good(h, e) ==> Rank(Edge(h, e)) < Rank(h)))
  }

  lemma MovingInCode(h: Hw, e: Env, f: Fsm)
    requires Sound(h, f) && Calm(e) && Sound(Edge(h, e), FsmAfter(h, e, f))
    requires h.ctl.op.OpCodeLow? || h.ctl.op.OpCodeHigh?
    ensures Moving(h, e, f)
  {}

  lemma MovingBeforeImage(h: Hw, e: Env, f: Fsm)
    requires Sound(h, f) && Calm(e) && Sound(Edge(h, e), FsmAfter(h, e, f))
    requires h.ctl.op.OpWait? && h.ctl.image
    ensures Moving(h, e, f)
  {}

  lemma MovingBeforeBos(h: Hw, e: Env, f: Fsm)
    requires Sound(h, f) && Calm(e) && Sound(Edge(h, e), FsmAfter(h, e, f))
    requires h.ctl.op.OpWait? && !h.ctl.image
    ensures Moving(h, e, f)
  {
    if Edge(h, e).ctl.op.OpPayload? {
      assert Edge(h, e).ctl.bytes == h.ctl.bytes;
    }
  }

  lemma MovingToLatch(h: Hw, e: Env, f: Fsm)
    requires Sound(h, f) && Calm(e) && Sound(Edge(h, e), FsmAfter(h, e, f))
    requires h.ctl.op.OpPayload? && h.ctl.bytes > 0 && h.tx.ticks == 0
    ensures Moving(h, e, f)
  {}

  lemma MovingOnAck(h: Hw, e: Env, f: Fsm)
    requires Sound(h, f) && Calm(e) && Sound(Edge(h, e), FsmAfter(h, e, f))
    requires h.ctl.op.OpPayload? && h.ctl.bytes > 0 && h.tx.ack
    ensures Moving(h, e, f)
  {
    var h' := Edge(h, e);
    assert UntilFree(h') < UntilFree(h);
    if !Dup(h.ctl) {
      assert h'.ctl.ack && UntilSend(h') == 3;
    }
  }

  lemma MovingBits(h: Hw, e: Env, f: Fsm)
    requires Sound(h, f) && Calm(e) && Sound(Edge(h, e), FsmAfter(h, e, f))
    requires h.ctl.op.OpPayload? && h.ctl.bytes > 0 && h.tx.ticks > 1
    ensures Moving(h, e, f)
  {
    var h' := Edge(h, e);
    assert h'.ctl.bytes == h.ctl.bytes && UntilFree(h') < UntilFree(h) && UntilSend(h') <= UntilSend(h);
    if Good(h, e) && h.ctl.transmit && !h'.ctl.transmit {
      assert UntilSend(h') < UntilSend(h);
    }
  }

  lemma MovingAtEnd(h: Hw, e: Env, f: Fsm)
    requires Sound(h, f) && Calm(e) && Sound(Edge(h, e), FsmAfter(h, e, f))
    requires h.ctl.op.OpPayload? && h.ctl.bytes == 0
    ensures Moving(h, e, f)
  {}

  /**
   * Every clock edge consumes a byte, puts something on the wires, or leaves the rank no higher; a
   * good edge without effect lowers it.
   */
  lemma NeverStalls(h: Hw, e: Env, f: Fsm)
    requires Sound(h, f) && Calm(e)
    ensures Sound(Edge(h, e), FsmAfter(h, e, f)) && Moving(h, e, f)
    ensures Rank(h) <= PATIENCE
  {
    EdgeIsSound(h, e, f);
    if h.ctl.op.OpCodeLow? || h.ctl.op.OpCodeHigh? {
      MovingInCode(h, e, f);
    } else if h.ctl.op.OpWait? && h.ctl.image {
      MovingBeforeImage(h, e, f);
    } else if h.ctl.op.OpWait? {
      MovingBeforeBos(h, e, f);
    } else if h.ctl.bytes == 0 {
      MovingAtEnd(h, e, f);
    } else if h.tx.ticks == 0 {
      MovingToLatch(h, e, f);
    } else if h.tx.ack {
      MovingOnAck(h, e, f);
    } else {
      MovingBits(h, e, f);
    }
  }

  /** A payload that waits starts exactly when the gate is open, and for a BOS payload the display is ready. */
  lemma WaitingStartsIff(h: Hw, e: Env)
    requires Waiting(h) && Calm(e)
    ensures Edge(h, e).ctl.op.OpPayload? <==> h.win.pass && (h.ctl.image || e.ready)
  {
    assert Edge(h, e).ctl == CtlNext(h, e);
  }

  /** So one that waits when a display cycle begins starts on the next clock. */
  lemma OpeningStarts(h: Hw, e: Env, e': Env)
    requires Opens(e) && Calm(e') && Waiting(Edge(h, e)) && (Edge(h, e).ctl.image || e'.ready)
    ensures Edge(Edge(h, e), e').ctl.op.OpPayload?
  {
    WaitingStartsIff(Edge(h, e), e');
  }

  // ---- Streams ----

  /**
   * The bytes popped continue the stream `input`, of which `popped` bytes are out already; if it
   * `ends`, nothing comes after it.
   */
  predicate Supplies(popped: nat, input: seq<u8>, ends: bool, h: Hw, es: seq<Env>)
    decreases |es|
  {
    es == [] ||
    (&& (Pops(h, es[0]) ==> if popped < |input| then es[0].next == input[popped] else !ends)
     && Supplies(NowPopped(popped, h, es[0]), input, ends, Edge(h, es[0]), es[1..]))
  }

  /** The number of bytes popped after a clock edge. */
  function NowPopped(popped: nat, h: Hw, e: Env): nat {
    if Pops(h, e) then popped + 1 else popped
  }

  ghost predicate Along(popped: seq<u8>, input: seq<u8>) {
    popped <= input || input <= popped
  }

  /** The bytes popped so far and the stream; a stream that ends leaves no command unfinished. */
  ghost predicate Follows(r: Run, input: seq<u8>, ends: bool) {
    && InStep(r) && Along(r.popped, input)
    && (ends ==> r.popped <= input && Interpret(r.from, input).0.op.CodeLow?)
  }

  /** Every byte of the stream is consumed, and if it ends, no command is under way any more. */
  ghost predicate Through(r: Run, input: seq<u8>, ends: bool) {
    input <= r.taken && (ends ==> r.taken == input && Quiet(r.h))
  }

  /** An edge that nothing outside holds up, if the stream still has bytes or, `!more`, if not. */
  predicate GoodFor(h: Hw, e: Env, more: bool) {
    && Calm(e) && e.ready && (Waiting(h) ==> h.win.pass)
    && (h.reader.state.GetData? && more ==> !e.empty)
  }

  lemma NextByte(popped: seq<u8>, input: seq<u8>, b: u8)
    requires Along(popped, input) && (|popped| < |input| ==> b == input[|popped|])
    ensures Along(popped + [b], input)
    ensures |popped| < |input| ==> popped + [b] <= input
  {}

  lemma EdgeFollows(r: Run, input: seq<u8>, ends: bool, e: Env, es: seq<Env>)
    requires Follows(r, input, ends) && Calm(e) && Supplies(|r.popped|, input, ends, r.h, [e] + es)
    ensures Follows(RunEdge(r, e), input, ends)
    ensures |RunEdge(r, e).popped| == NowPopped(|r.popped|, r.h, e)
    ensures Supplies(|RunEdge(r, e).popped|, input, ends, Edge(r.h, e), es)
  {
    EdgeInStep(r, e);
    assert ([e] + es)[1..] == es;
    if Pops(r.h, e) {
      NextByte(r.popped, input, e.next);
    } else {
      assert r.popped + [] == r.popped;
    }
  }

  lemma FollowsRun(r: Run, input: seq<u8>, ends: bool, es: seq<Env>)
    requires Follows(r, input, ends) && Undisturbed(es) && Supplies(|r.popped|, input, ends, r.h, es) && es != []
    ensures Follows(RunEdge(r, es[0]), input, ends) && Undisturbed(es[1..])
    ensures |RunEdge(r, es[0]).popped| == NowPopped(|r.popped|, r.h, es[0])
    ensures Supplies(|RunEdge(r, es[0]).popped|, input, ends, Edge(r.h, es[0]), es[1..])
  {
    assert [es[0]] + es[1..] == es;
    EdgeFollows(r, input, ends, es[0], es[1..]);
  }

  /** While the reader asks for a byte, it holds none. */
  lemma AskingHoldsNone(r: Run)
    requires InStep(r) && r.h.reader.state.GetData?
    ensures r.popped == r.taken
  {}

  /** Until the stream is through, an edge that is good for it has an effect on the controller. */
  lemma GoodWhileUnfinished(r: Run, input: seq<u8>, ends: bool, e: Env)
    requires Follows(r, input, ends) && GoodFor(r.h, e, |r.popped| < |input|) && !Through(r, input, ends)
    ensures Good(r.h, e)
  {
    if r.h.reader.state.GetData? && |r.popped| >= |input| {
      AskingHoldsNone(r);
      assert ends && r.popped == input == r.taken;
      NothingNeeded(r, input);
    }
  }

  lemma NothingNeeded(r: Run, input: seq<u8>)
    requires InStep(r) && r.h.reader.state.GetData? && r.taken == input && Interpret(r.from, input).0.op.CodeLow?
    ensures NeedsByte(r.h) ==> Quiet(r.h)
  {
    assert Sound(r.h, Interpret(r.from, input).0);
  }

  /** Once through, it stays so. */
  lemma StaysThrough(r: Run, input: seq<u8>, ends: bool, es: seq<Env>)
    requires Follows(r, input, ends) && Undisturbed(es) && Supplies(|r.popped|, input, ends, r.h, es) && es != []
    requires Through(r, input, ends)
    ensures Through(RunEdge(r, es[0]), input, ends)
  {
    if ends {
      assert r.taken <= r.popped <= input;
      assert !Pops(r.h, es[0]);
    }
  }

  /** The good edges of a run for a stream of `n` bytes. */
  function Goods(n: nat, popped: nat, h: Hw, es: seq<Env>): nat
    decreases |es|
  {
    if es == [] then 0
    else One(GoodFor(h, es[0], popped < n)) + Goods(n, NowPopped(popped, h, es[0]), Edge(h, es[0]), es[1..])
  }

  /** Bytes consumed and events on the wires. */
  function Work(r: Run): nat {
    |r.taken| + |r.emitted|
  }

  lemma WorkStep(r: Run, e: Env)
    requires InStep(r) && Calm(e)
    ensures InStep(RunEdge(r, e))
    ensures Rank(r.h) <= PATIENCE
    ensures One(Good(r.h, e)) + (PATIENCE + 1) * Work(r) + Rank(Edge(r.h, e))
         <= (PATIENCE + 1) * Work(RunEdge(r, e)) + Rank(r.h)
  {
    var s := RunEdge(r, e);
    NeverStalls(r.h, e, Interpret(r.from, r.taken).0);
    EdgeInStep(r, e);
    NeverStalls(s.h, e, Interpret(s.from, s.taken).0);
  }

  /** As long as the stream is not through, the good edges are paid for by work and rank. */
  lemma {:induction false} WorkGrows(r: Run, input: seq<u8>, ends: bool, es: seq<Env>)
    requires Follows(r, input, ends) && Undisturbed(es) && Supplies(|r.popped|, input, ends, r.h, es)
    ensures Follows(RunAll(r, es), input, ends)
    ensures Through(r, input, ends) ==> Through(RunAll(r, es), input, ends)
    ensures !Through(RunAll(r, es), input, ends) ==>
              Goods(|input|, |r.popped|, r.h, es) + (PATIENCE + 1) * Work(r)
              <= (PATIENCE + 1) * Work(RunAll(r, es)) + Rank(r.h)
    decreases |es|
  {
    if es != [] {
      var s := RunEdge(r, es[0]);
      FollowsRun(r, input, ends, es);
      WorkGrows(s, input, ends, es[1..]);
      if Through(r, input, ends) {
        StaysThrough(r, input, ends, es);
      } else {
        WorkStep(r, es[0]);
        if GoodFor(r.h, es[0], |r.popped| < |input|) {
          GoodWhileUnfinished(r, input, ends, es[0]);
        }
      }
    }
  }

  /** There is only so much work in a stream. */
  lemma WorkBound(r: Run, input: seq<u8>, ends: bool)
    requires Follows(r, input, ends) && !Through(r, input, ends)
    ensures Work(r) <= |input| + |Interpret(r.from, input).1|
  {
    InStepIsPrefix(r);
    assert |r.popped| <= |r.taken| + 1;
    if !ends {
      assert r.taken <= r.popped;
    }
    assert r.popped <= input && input == r.popped + input[|r.popped|..];
    InterpretConcat(r.from, r.popped, input[|r.popped|..]);
  }

  /** How many good edges are enough for a stream. */
  function Enough(f: Fsm, input: seq<u8>): nat {
    (PATIENCE + 1) * (|input| + |Interpret(f, input).1| + 1)
  }

  /** From anywhere in a run: enough good edges bring the stream through. */
  lemma GoodEdgesSuffice(r: Run, input: seq<u8>, ends: bool, es: seq<Env>)
    requires Follows(r, input, ends) && Undisturbed(es) && Supplies(|r.popped|, input, ends, r.h, es)
    requires Goods(|input|, |r.popped|, r.h, es) >= Enough(r.from, input)
    ensures Through(RunAll(r, es), input, ends)
  {
    WorkGrows(r, input, ends, es);
    RunKeepsFrom(r, es);
    if !Through(RunAll(r, es), input, ends) {
      WorkBound(RunAll(r, es), input, ends);
      RankBound(r);
    }
  }

  lemma RankBound(r: Run)
    requires InStep(r)
    ensures Rank(r.h) <= PATIENCE
  {
    WorkStep(r, Env(true, true, false, false, false, false, true, 0));
  }

  lemma StartFollows(h: Hw, input: seq<u8>)
    requires Rested(h)
    ensures Follows(Start(h), input, false)
    ensures Interpret(FsmOf(h), input).0.op.CodeLow? ==> Follows(Start(h), input, true)
  {
    StartInStep(h);
  }

  /**
   * From rest, every stream of bytes, whether more comes after it or not, is consumed within a
   * number of good edges proportional to its length and to what it means, however many other edges
   * lie between them.
   */
  lemma ConsumedByGoodEdges(h: Hw, input: seq<u8>, es: seq<Env>)
    requires Rested(h) && Undisturbed(es) && Supplies(0, input, false, h, es)
    requires Goods(|input|, 0, h, es) >= Enough(FsmOf(h), input)
    ensures input <= RunAll(Start(h), es).taken
  {
    StartFollows(h, input);
    GoodEdgesSuffice(Start(h), input, false, es);
  }

  // ---- A scanning display ----

  /**
   * The clocks right after a display cycle began, or in sleep, on which READY is high and the reader
   * does not ask in vain for a byte of the stream.
   */
  function Chances(n: nat, popped: nat, h: Hw, es: seq<Env>): nat
    decreases |es|
  {
    if |es| < 2 then 0
    else
      var popped', h' := NowPopped(popped, h, es[0]), Edge(h, es[0]);
      One(Opens(es[0]) && es[1].ready && (h'.reader.state.GetData? && popped' < n ==> !es[1].empty))
      + Chances(n, popped', h', es[1..])
  }

  lemma {:induction false} ChancesAreGood(n: nat, popped: nat, h: Hw, es: seq<Env>)
    requires Undisturbed(es)
    ensures Chances(n, popped, h, es) + (if es == [] then 0 else One(GoodFor(h, es[0], popped < n)))
         <= Goods(n, popped, h, es)
    decreases |es|
  {
    if |es| >= 2 {
      assert es[1..][0] == es[1];
      ChancesAreGood(n, NowPopped(popped, h, es[0]), Edge(h, es[0]), es[1..]);
    }
  }

  /**
   * The display scans and the host stops when it likes: every stream is consumed within a number of
   * display cycles proportional to its length and to what it means, whatever READY, the gate and the
   * FIFO do in between.
   */
  lemma EveryByteIsConsumed(h: Hw, input: seq<u8>, es: seq<Env>)
    requires Rested(h) && Undisturbed(es) && Supplies(0, input, false, h, es)
    requires Chances(|input|, 0, h, es) >= Enough(FsmOf(h), input)
    ensures input <= RunAll(Start(h), es).taken
  {
    ChancesAreGood(|input|, 0, h, es);
    ConsumedByGoodEdges(h, input, es);
  }

  // ---- And comes to rest ----

  lemma QuietStays(r: Run, e: Env)
    requires InStep(r) && Calm(e) && Quiet(r.h) && !Pops(r.h, e)
    ensures Quiet(Edge(r.h, e))
    ensures Edge(r.h, e).tx.ticks == if r.h.tx.ticks == 0 then 0 else (r.h.tx.ticks + 1) % 16
  {}

  /** The last byte is shifted out within sixteen clocks. */
  const BYTE_TICKS := 16

  lemma {:induction false} ShiftsOut(r: Run, input: seq<u8>, es: seq<Env>)
    requires Follows(r, input, true) && Through(r, input, true) && Undisturbed(es)
    requires Supplies(|r.popped|, input, true, r.h, es)
    requires r.h.tx.ticks == 0 || r.h.tx.ticks + |es| >= BYTE_TICKS
    ensures Through(RunAll(r, es), input, true) && RunAll(r, es).popped == input && RunAll(r, es).h.tx.ticks == 0
    decreases |es|
  {
    assert r.taken <= r.popped;
    assert r.h.tx.ticks < BYTE_TICKS;
    if es != [] {
      FollowsRun(r, input, true, es);
      StaysThrough(r, input, true, es);
      assert !Pops(r.h, es[0]);
      QuietStays(r, es[0]);
      ShiftsOut(RunEdge(r, es[0]), input, es[1..]);
    }
  }

  /**
   * A stream that leaves no command unfinished brings the controller to rest again, from anywhere in
   * a run: after as many cycles, and sixteen clocks for the byte on the wires.
   */
  lemma EveryStreamEnds(r: Run, input: seq<u8>, es: seq<Env>, last: seq<Env>)
    requires Follows(r, input, true) && Undisturbed(es) && Supplies(|r.popped|, input, true, r.h, es)
    requires Chances(|input|, |r.popped|, r.h, es) >= Enough(r.from, input)
    requires var s := RunAll(r, es); Undisturbed(last) && Supplies(|s.popped|, input, true, s.h, last)
    requires |last| >= BYTE_TICKS
    ensures var s := RunAll(RunAll(r, es), last);
            Quiet(s.h) && s.h.tx.ticks == 0 && s.taken == s.popped == input
  {
    ChancesAreGood(|input|, |r.popped|, r.h, es);
    GoodEdgesSuffice(r, input, true, es);
    WorkGrows(r, input, true, es);
    ShiftsOut(RunAll(r, es), input, last);
  }
}
