/**
 * What the display hears: serial bits on `pe_data`, clocked by `pe_clock`, under the BOS line.
 */
module Wires {
  import opened Bytes
  import opened CommandFsm
  import opened Transmitter
  import opened PrivEye
  import opened Refinement
  import opened Recovery

  /** The byte being shifted out, marked by the line it travels with. */
  function Flight(h: Hw, cur: u8): seq<Event> {
    if h.tx.ticks == 0 then [] else [Labelled(h.ctl.nbos, cur)]
  }

  /** What the display hears at a clock edge: the BOS line falls, or the last bit of a byte arrives. */
  function Hears(h: Hw, e: Env, rx: Rx): (Rx, seq<Event>) {
    var h' := Edge(h, e);
    var (rx', got) := Listen(rx, h.tx, h'.tx);
    (rx', (if h.ctl.nbos && !h'.ctl.nbos then [BosBegin] else [])
          + if got == [] then [] else [Labelled(h'.ctl.nbos, got[0])])
  }

  /** The BOS line stands still from the moment a byte is latched until its last bit is out. */
  lemma SteadyLine(h: Hw, e: Env)
    requires Handshakes(h) && Framed(h)
    requires h.tx.ticks != 0 || Latches(h.tx, h.ctl.transmit)
    ensures CtlNext(h, e).nbos == h.ctl.nbos == Edge(h, e).ctl.nbos
  {
    if h.ctl.op.OpPayload? {
      assert CtlNext(h, e).nbos == h.ctl.image;
    } else {
      assert CtlNext(h, e).nbos;
    }
  }

  lemma EdgeHeard(h: Hw, e: Env, f: Fsm, cur: u8, rx: Rx)
    requires Sound(h, f) && Calm(e) && Sending(h.tx, cur, rx)
    ensures var (rx', heard) := Hears(h, e, rx);
            var cur' := if h.tx.ticks == 0 then TxData(h) else cur;
            && Sending(Edge(h, e).tx, cur', rx')
            && Flight(h, cur) + Emits(h, e) == heard + Flight(Edge(h, e), cur')
  {
    EdgeSends(h.tx, cur, rx, h.ctl.transmit, TxData(h));
    if h.tx.ticks != 0 || Latches(h.tx, h.ctl.transmit) {
      SteadyLine(h, e);
    }
  }

  /** A run together with what the display has heard of it. */
  datatype Listening = Listening(r: Run, rx: Rx, heard: seq<Event>)

  function ListenEdge(l: Listening, e: Env): Listening {
    var (rx', heard) := Hears(l.r.h, e, l.rx);
    Listening(RunEdge(l.r, e), rx', l.heard + heard)
  }

  function ListenAll(l: Listening, es: seq<Env>): Listening
    decreases |es|
  {
    if es == [] then l else ListenAll(ListenEdge(l, es[0]), es[1..])
  }

  lemma {:induction false} RunOfListening(l: Listening, es: seq<Env>)
    ensures ListenAll(l, es).r == RunAll(l.r, es)
    decreases |es|
  {
    if es != [] {
      RunOfListening(ListenEdge(l, es[0]), es[1..]);
    }
  }

  ghost predicate Heard(l: Listening, cur: u8) {
    && InStep(l.r) && Sending(l.r.h.tx, cur, l.rx)
    && l.r.emitted == l.heard + Flight(l.r.h, cur)
  }

  lemma Regroup(heard: seq<Event>, flight: seq<Event>, out: seq<Event>, more: seq<Event>, flight': seq<Event>)
    requires flight + out == more + flight'
    ensures heard + flight + out == heard + more + flight'
  {
    assert heard + flight + out == heard + (flight + out);
  }

  lemma EdgeKeepsHeard(l: Listening, e: Env, cur: u8)
    requires Heard(l, cur) && Calm(e)
    ensures Heard(ListenEdge(l, e), if l.r.h.tx.ticks == 0 then TxData(l.r.h) else cur)
  {
    EdgeHeard(l.r.h, e, Interpret(l.r.from, l.r.taken).0, cur, l.rx);
    EdgeInStep(l.r, e);
    var cur' := if l.r.h.tx.ticks == 0 then TxData(l.r.h) else cur;
    Regroup(l.heard, Flight(l.r.h, cur), Emits(l.r.h, e), Hears(l.r.h, e, l.rx).1, Flight(Edge(l.r.h, e), cur'));
  }

  lemma {:induction false} RunHeard(l: Listening, es: seq<Env>, cur: u8) returns (last: u8)
    requires Heard(l, cur) && Undisturbed(es)
    ensures Heard(ListenAll(l, es), last)
    decreases |es|
  {
    last := cur;
    if es != [] {
      EdgeKeepsHeard(l, es[0], cur);
      last := RunHeard(ListenEdge(l, es[0]), es[1..],
                       if l.r.h.tx.ticks == 0 then TxData(l.r.h) else cur);
    }
  }

  /** A run begins, and the display has heard nothing of it. */
  function Silence(h: Hw): Listening {
    Listening(Start(h), Rx(0, 0), [])
  }

  /**
   * From any state of rest, as after reset and any clocks offline, over every undisturbed run: bit by
   * bit, the display hears a prefix of what the interpreter means by the bytes read from the FIFO,
   * and at rest it has heard all of it.
   */
  lemma DisplayHears(h: Hw, es: seq<Env>)
    requires Rested(h) && Undisturbed(es)
    ensures var l := ListenAll(Silence(h), es);
            var (f, meant) := Interpret(FsmOf(h), l.r.popped);
            && l.heard <= meant
            && (Quiet(l.r.h) && l.r.h.tx.ticks == 0 ==> l.heard == meant && f == FsmOf(l.r.h))
  {
    StartInStep(h);
    var last := RunHeard(Silence(h), es, 0);
    RunOfListening(Silence(h), es);
    WiresFollowInterpreter(h, es);
  }

  /** So at rest the display is as feeding those bytes to the byte-level device leaves it. */
  lemma DisplayFollowsDevice(h: Hw, es: seq<Env>, d: Display)
    requires Rested(h) && Undisturbed(es)
    ensures var l := ListenAll(Silence(h), es);
            Quiet(l.r.h) && l.r.h.tx.ticks == 0 ==>
              Device(FsmOf(l.r.h), ShowAll(d, l.heard)) == Feed(Device(FsmOf(h), d), l.r.popped)
  {
    DisplayHears(h, es);
  }

  // ---- The registers themselves ----

  /** The pins of the display, and whether the controller's clock has finished a byte on them. */
  method ClockOnce(c: Controller, e: Env, rx: Rx) returns (rx': Rx, heard: seq<Event>)
    modifies c, c.tx
    ensures c.Abs() == Edge(old(c.Abs()), e) && (rx', heard) == Hears(old(c.Abs()), e, rx)
  {
    var sck, nbos := c.tx.sck, c.nbos;
    c.Posedge(e);
    var (next, got) := Sample(rx, sck, c.tx.sck, c.tx.bits >= 0x80);
    rx' := next;
    heard := (if nbos && !c.nbos then [BosBegin] else [])
             + if got == [] then [] else [Labelled(c.nbos, got[0])];
  }

  /** The controller from wherever it is. */
  method ListenOn(c: Controller, es: seq<Env>) returns (read: seq<u8>, heard: seq<Event>, rest: bool)
    modifies c, c.tx
    ensures var h := old(c.Abs());
            Rested(h) && Undisturbed(es) ==>
              && heard <= Interpret(FsmOf(h), read).1
              && (rest ==> heard == Interpret(FsmOf(h), read).1)
  {
    ghost var h := c.Abs();
    ghost var l := Silence(h);
    var rx := Rx(0, 0);
    read, heard := [], [];
    if Rested(h) && Undisturbed(es) {
      DisplayHears(h, es);
    }
    for n := 0 to |es|
      invariant l.r.h == c.Abs() && l.rx == rx && l.r.popped == read && l.heard == heard
      invariant ListenAll(l, es[n..]) == ListenAll(Silence(h), es)
    {
      var e := es[n];
      assert es[n..][0] == e && es[n..][1..] == es[n + 1..];
      l := ListenEdge(l, e);
      if c.reader.GetData? && !e.empty {
        read := read + [e.next];
      }
      var more;
      rx, more := ClockOnce(c, e, rx);
      heard := heard + more;
    }
    rest := c.op.OpCodeLow? && !c.reader.FifoWait? && !c.reader.SendData? && c.tx.ticks == 0;
  }

  /**
   * The controller from reset, with a receiver on its three wires. The display is offline at first,
   * for any number of clocks; if no time-out or disconnection comes after that, the receiver hears a
   * prefix of what the interpreter makes of the bytes read from the FIFO, and all of it once the
   * controller is at rest.
   */
  method ListenFromReset(data: u8, offline: seq<Env>, es: seq<Env>)
    returns (read: seq<u8>, heard: seq<Event>, rest: bool)
    ensures Offline(offline) && Undisturbed(es) ==> heard <= Interpret(INITIAL, read).1
    ensures Offline(offline) && Undisturbed(es) && rest ==> heard == Interpret(INITIAL, read).1
  {
    var c := new Controller(data);
    ghost var h := After(AfterReset(data), offline);
    for n := 0 to |offline|
      invariant fresh(c) && fresh(c.tx) && After(c.Abs(), offline[n..]) == h
    {
      assert offline[n..][0] == offline[n] && offline[n..][1..] == offline[n + 1..];
      c.Posedge(offline[n]);
    }
    if Offline(offline) {
      ResetOfflineRests(data, offline);
    }
    read, heard, rest := ListenOn(c, es);
  }
}
