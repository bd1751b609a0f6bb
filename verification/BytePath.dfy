/**
 * The whole path of a byte: host, FIFO, controller, display wires. The write clock is the SPI byte
 * strobe and the read clock is the controller's clock (fpga/eye.v:88-112).
 */
module BytePath {
  import opened Bytes
  import opened Packets
  import opened CommandFsm
  import opened PrivEye
  import opened Wires
  import opened FlowControl
  import R = Refinement
  import G = Progress
  import opened FrameGate
  import F = AsyncFifo
  import opened Encoder
  import opened EndToEnd
  import D = Drainer
  import S = Sends

  /** The FIFO with the host's credit, the controller and its listener, and the bytes the host strobed in. */
  datatype Path = Path(link: Link, l: Listening, sent: seq<u8>)

  /** A look at DEV_RDY, or clock edges; `env` is what the controller finds on a read-clock edge. */
  datatype Move = Move(act: Act, env: Env)

  ghost predicate Fits(p: Path) {
    F.Sane(EyeFifo()) && F.Sized(EyeFifo(), p.link.run.f)
  }

  /** The byte at the head of the FIFO memory. */
  function Head(f: F.Fifo): u8
    requires F.Sane(EyeFifo()) && F.Sized(EyeFifo(), f)
  {
    f.w.mem[f.r.bin % F.Depth(EyeFifo())]
  }

  /**
   * The wiring: the controller's clock is the read clock, `fifo_pop` enables the read, and `empty`
   * and the byte come from the FIFO. DEV_RDY is low while the FIFO is held in reset. The host keeps
   * the controller enabled, and the display stays online and in time.
   */
  ghost predicate Wired(p: Path, m: Move)
    requires Fits(p)
  {
    match m.act
    case Look => !p.l.r.h.reader.state.Clear?
    case Tick(e) =>
      && (e.rEdge ==> && e.rEn == Pops(p.l.r.h, m.env)
                      && m.env.empty == p.link.run.f.r.empty
                      && m.env.next == Head(p.link.run.f)
                      && Calm(m.env))
      && (e.wEdge ==> e.wEn)
  }

  ghost predicate Legal(p: Path, m: Move)
    requires Fits(p)
  {
    Obeys(p.link, m.act) && Wired(p, m)
  }

  function Step(p: Path, m: Move): (p': Path)
    requires Fits(p)
    ensures Fits(p')
  {
    Path(Do(p.link, m.act),
         if m.act.Tick? && m.act.e.rEdge then ListenEdge(p.l, m.env) else p.l,
         if m.act.Tick? && m.act.e.wEdge then p.sent + [m.act.e.data] else p.sent)
  }

  /** What holds between the parts. */
  ghost predicate Joined(p: Path) {
    && Roomy(p.link)
    && p.link.run.accepted == p.sent
    && p.l.r.popped == p.link.run.delivered
  }

  lemma StepIsJoined(p: Path, m: Move)
    requires Fits(p) && Joined(p) && Legal(p, m)
    ensures Joined(Step(p, m))
  {
    DoIsRoomy(p.link, m.act);
  }

  // ---- Runs ----

  function StepAll(p: Path, ms: seq<Move>): (p': Path)
    requires Fits(p)
    ensures Fits(p')
    decreases |ms|
  {
    if ms == [] then p else StepAll(Step(p, ms[0]), ms[1..])
  }

  ghost predicate AllLegal(p: Path, ms: seq<Move>)
    requires Fits(p)
    decreases |ms|
  {
    ms == [] || (Legal(p, ms[0]) && AllLegal(Step(p, ms[0]), ms[1..]))
  }

  /** The clock edges the controller saw. */
  function Edges(ms: seq<Move>): seq<Env> {
    if ms == [] then []
    else (if ms[0].act.Tick? && ms[0].act.e.rEdge then [ms[0].env] else []) + Edges(ms[1..])
  }

  lemma {:induction false} RunIsJoined(p: Path, ms: seq<Move>)
    requires Fits(p) && Joined(p) && AllLegal(p, ms)
    ensures Joined(StepAll(p, ms))
    decreases |ms|
  {
    if ms != [] {
      StepIsJoined(p, ms[0]);
      RunIsJoined(Step(p, ms[0]), ms[1..]);
    }
  }

  /** The controller's part of a run is a run of the controller. */
  lemma {:induction false} EdgesOfRun(p: Path, ms: seq<Move>)
    requires Fits(p) && AllLegal(p, ms)
    ensures StepAll(p, ms).l == ListenAll(p.l, Edges(ms)) && R.Undisturbed(Edges(ms))
    decreases |ms|
  {
    if ms != [] {
      var rest := Edges(ms[1..]);
      EdgesOfRun(Step(p, ms[0]), ms[1..]);
      if ms[0].act.Tick? && ms[0].act.e.rEdge {
        assert Edges(ms)[1..] == rest;
      } else {
        assert Edges(ms) == rest;
      }
    }
  }

  /** The FIFO in reset and empty, and the controller at rest. */
  function Begin(mem: seq<u8>, data: u8, h: Hw): Path {
    Path(Link(F.Start(mem, data), 0), Silence(h), [])
  }

  lemma BeginIsJoined(mem: seq<u8>, data: u8, h: Hw)
    requires F.Sane(EyeFifo()) && |mem| == F.Depth(EyeFifo())
    ensures Fits(Begin(mem, data, h)) && Joined(Begin(mem, data, h))
  {
    FifoSize();
    StartIsRoomy(mem, data);
  }

  /** All bytes went through, and nothing is under way any more. */
  predicate Drained(p: Path) {
    |p.l.r.popped| == |p.sent| && R.Quiet(p.l.r.h) && p.l.r.h.tx.ticks == 0
  }

  lemma InterpretPrefix(f: Fsm, s: seq<u8>, t: seq<u8>)
    requires s <= t
    ensures Interpret(f, s).1 <= Interpret(f, t).1
  {
    assert t == s + t[|s|..];
    InterpretConcat(f, s, t[|s|..]);
  }

  /** The moves lead from the beginning to `p`, each legal when it is made. */
  ghost predicate RunsTo(mem: seq<u8>, data: u8, h: Hw, ms: seq<Move>, p: Path) {
    && F.Sane(EyeFifo()) && |mem| == F.Depth(EyeFifo()) && R.Rested(h)
    && AllLegal(Begin(mem, data, h), ms) && p == StepAll(Begin(mem, data, h), ms)
  }

  /**
   * From a controller at rest, as after reset, however the byte strobe, the controller's clock and the
   * display interleave, as long as the host looks at DEV_RDY every 4096 bytes: the display hears, bit
   * by bit, a prefix of what the interpreter means by the bytes sent; and once everything has
   * drained, all of it.
   */
  lemma DisplayHearsTheHost(mem: seq<u8>, data: u8, h: Hw, ms: seq<Move>, p: Path)
    requires RunsTo(mem, data, h, ms, p)
    ensures var (f, meant) := Interpret(R.FsmOf(h), p.sent);
            && p.l.heard <= meant
            && (Drained(p) ==> p.l.heard == meant && f == R.FsmOf(p.l.r.h))
  {
    var b := Begin(mem, data, h);
    BeginIsJoined(mem, data, h);
    RunIsJoined(b, ms);
    EdgesOfRun(b, ms);
    RunOfListening(b.l, Edges(ms));
    InterpretPrefix(R.FsmOf(h), p.l.r.popped, p.sent);
    DisplayHears(h, Edges(ms));
    if Drained(p) {
      assert p.l.r.popped == p.sent;
    }
  }

  // ---- Draining ----

  /** The host sends nothing: SPI clocks no byte in. */
  predicate HostStops(ms: seq<Move>) {
    forall i | 0 <= i < |ms| :: ms[i].act.Tick? ==> !ms[i].act.e.wEdge
  }

  /** The clocks right after a display cycle began, or in sleep, on which READY is high. */
  function Openings(es: seq<Env>): nat {
    if |es| < 2 then 0 else (if Opens(es[0]) && es[1].ready then 1 else 0) + Openings(es[1..])
  }

  /** The FIFO's read side catches up, and the host's bytes are all there are. */
  lemma {:induction false} StopCatchesUp(p: Path, ms: seq<Move>, k: nat)
    requires Fits(p) && Joined(p) && AllLegal(p, ms) && HostStops(ms) && F.Caught(p.link.run, k)
    ensures F.Caught(StepAll(p, ms).link.run, k + |Edges(ms)|) && StepAll(p, ms).sent == p.sent
    decreases |ms|
  {
    if ms != [] {
      var m := ms[0];
      StepIsJoined(p, m);
      if m.act.Tick? && m.act.e.rEdge {
        F.ReadCatchesUp(EyeFifo(), p.link.run, m.act.e, k);
        StopCatchesUp(Step(p, m), ms[1..], k + 1);
      } else {
        StopCatchesUp(Step(p, m), ms[1..], k);
      }
    }
  }

  /** What the controller finds on a read-clock edge once the FIFO's flag has caught up. */
  lemma EdgeIsServed(p: Path, m: Move)
    requires Fits(p) && Joined(p) && Legal(p, m) && m.act.Tick? && m.act.e.rEdge
    ensures Pops(p.l.r.h, m.env) ==> |p.l.r.popped| < |p.sent| && m.env.next == p.sent[|p.l.r.popped|]
    ensures F.Caught(p.link.run, 3) && |p.l.r.popped| < |p.sent| ==> !m.env.empty
  {
    if !p.link.run.f.r.empty {
      F.DeliversNext(EyeFifo(), p.link.run);
    }
  }

  lemma StopStep(p: Path, m: Move)
    requires Fits(p) && Joined(p) && Legal(p, m) && F.Caught(p.link.run, 3) && (m.act.Tick? ==> !m.act.e.wEdge)
    ensures Joined(Step(p, m)) && F.Caught(Step(p, m).link.run, 3) && Step(p, m).sent == p.sent
  {
    StepIsJoined(p, m);
    if m.act.Tick? && m.act.e.rEdge {
      F.ReadCatchesUp(EyeFifo(), p.link.run, m.act.e, 3);
    }
  }

  /** The bytes read are the rest of the host's, and while there are any, the reader finds them. */
  ghost predicate Served(sent: seq<u8>, popped: nat, h: Hw, es: seq<Env>) {
    && G.Supplies(popped, sent, true, h, es)
    && (es != [] && h.reader.state.GetData? && popped < |sent| ==> !es[0].empty)
    && Openings(es) <= G.Chances(|sent|, popped, h, es)
  }

  lemma ServedBefore(sent: seq<u8>, popped: nat, h: Hw, e: Env, rest: seq<Env>)
    requires Served(sent, G.NowPopped(popped, h, e), Edge(h, e), rest)
    requires Pops(h, e) ==> popped < |sent| && e.next == sent[popped]
    requires h.reader.state.GetData? && popped < |sent| ==> !e.empty
    ensures Served(sent, popped, h, [e] + rest)
  {
    assert ([e] + rest)[1..] == rest;
  }

  lemma ServedStep(p: Path, m: Move, rest: seq<Env>)
    requires Fits(p) && Joined(p) && Legal(p, m) && F.Caught(p.link.run, 3)
    requires var q := Step(p, m); Served(p.sent, |q.l.r.popped|, q.l.r.h, rest)
    ensures Served(p.sent, |p.l.r.popped|, p.l.r.h,
                   if m.act.Tick? && m.act.e.rEdge then [m.env] + rest else rest)
  {
    if m.act.Tick? && m.act.e.rEdge {
      EdgeIsServed(p, m);
      ServedBefore(p.sent, |p.l.r.popped|, p.l.r.h, m.env, rest);
    }
  }

  lemma {:induction false} StopIsServed(p: Path, ms: seq<Move>)
    requires Fits(p) && Joined(p) && AllLegal(p, ms) && HostStops(ms) && F.Caught(p.link.run, 3)
    ensures Served(p.sent, |p.l.r.popped|, p.l.r.h, Edges(ms))
    decreases |ms|
  {
    if ms != [] {
      var m, rest := ms[0], Edges(ms[1..]);
      StopStep(p, m);
      StopIsServed(Step(p, m), ms[1..]);
      ServedStep(p, m, rest);
      assert Edges(ms) == if m.act.Tick? && m.act.e.rEdge then [m.env] + rest else [] + rest;
      assert [] + rest == rest;
    }
  }

  lemma PathFollows(mem: seq<u8>, data: u8, h: Hw, ms: seq<Move>, p: Path)
    requires RunsTo(mem, data, h, ms, p) && Interpret(R.FsmOf(h), p.sent).0.op.CodeLow?
    ensures Joined(p) && G.Follows(p.l.r, p.sent, true) && p.l.r.from == R.FsmOf(h)
  {
    var b := Begin(mem, data, h);
    BeginIsJoined(mem, data, h);
    RunIsJoined(b, ms);
    EdgesOfRun(b, ms);
    RunOfListening(b.l, Edges(ms));
    R.StartInStep(h);
    R.RunInStep(R.Start(h), Edges(ms));
    R.RunKeepsFrom(R.Start(h), Edges(ms));
  }

  lemma {:induction false} RunsOn(p: Path, ms: seq<Move>, more: seq<Move>)
    requires Fits(p) && AllLegal(p, ms) && AllLegal(StepAll(p, ms), more)
    ensures AllLegal(p, ms + more) && StepAll(p, ms + more) == StepAll(StepAll(p, ms), more)
    decreases |ms|
  {
    if ms == [] {
      assert ms + more == more;
    } else {
      assert (ms + more)[1..] == ms[1..] + more;
      RunsOn(Step(p, ms[0]), ms[1..], more);
    }
  }

  lemma RunsOnTo(mem: seq<u8>, data: u8, h: Hw, ms: seq<Move>, p: Path, more: seq<Move>)
    requires RunsTo(mem, data, h, ms, p) && AllLegal(p, more)
    ensures RunsTo(mem, data, h, ms + more, StepAll(p, more))
  {
    RunsOn(Begin(mem, data, h), ms, more);
  }

  /** Three read-clock edges bring the empty flag up to date. */
  const SETTLE := 3

  /**
   * Once the host stops, everything drains: after any run, three read-clock edges, as many display
   * cycles as the bytes sent and their meaning ask for, and sixteen more clocks, all bytes have gone
   * through and the controller is at rest. The bytes sent must not leave a command unfinished.
   */
  lemma EverythingDrains(mem: seq<u8>, data: u8, h: Hw, ms: seq<Move>, p: Path,
                         settle: seq<Move>, scan: seq<Move>, last: seq<Move>)
    requires RunsTo(mem, data, h, ms, p) && Interpret(R.FsmOf(h), p.sent).0.op.CodeLow?
    requires AllLegal(p, settle) && HostStops(settle) && |Edges(settle)| >= SETTLE
    requires AllLegal(StepAll(p, settle), scan) && HostStops(scan)
    requires Openings(Edges(scan)) >= G.Enough(R.FsmOf(h), p.sent)
    requires AllLegal(StepAll(StepAll(p, settle), scan), last) && HostStops(last) && |Edges(last)| >= G.BYTE_TICKS
    ensures var q := StepAll(StepAll(StepAll(p, settle), scan), last);
            RunsTo(mem, data, h, ms + settle + scan + last, q) && q.sent == p.sent && Drained(q)
  {
    var p1 := StepAll(p, settle);
    var p2 := StepAll(p1, scan);
    PathFollows(mem, data, h, ms, p);
    StopCatchesUp(p, settle, 0);
    RunsOnTo(mem, data, h, ms, p, settle);
    RunsOnTo(mem, data, h, ms + settle, p1, scan);
    RunsOnTo(mem, data, h, ms + settle + scan, p2, last);
    ScanDrains(mem, data, h, ms + settle, p1, scan, last);
  }

  /** The same once the empty flag is up to date. */
  lemma ScanDrains(mem: seq<u8>, data: u8, h: Hw, ms: seq<Move>, p: Path, scan: seq<Move>, last: seq<Move>)
    requires RunsTo(mem, data, h, ms, p) && Interpret(R.FsmOf(h), p.sent).0.op.CodeLow?
    requires F.Caught(p.link.run, 3)
    requires AllLegal(p, scan) && HostStops(scan) && Openings(Edges(scan)) >= G.Enough(R.FsmOf(h), p.sent)
    requires AllLegal(StepAll(p, scan), last) && HostStops(last) && |Edges(last)| >= G.BYTE_TICKS
    ensures var q := StepAll(StepAll(p, scan), last);
            q.sent == p.sent && Drained(q)
  {
    var p1 := StepAll(p, scan);
    PathFollows(mem, data, h, ms, p);
    StopIsServed(p, scan);
    StopCatchesUp(p, scan, 3);
    RunIsJoined(p, scan);
    StopIsServed(p1, last);
    StopCatchesUp(p1, last, 3);
    EdgesOfRun(p, scan);
    EdgesOfRun(p1, last);
    RunOfListening(p.l, Edges(scan));
    RunOfListening(p1.l, Edges(last));
    G.EveryStreamEnds(p.l.r, p.sent, Edges(scan), Edges(last));
  }

  // ---- What the driver sends ----

  /** So after draining, the display is as the byte-level device would be that was fed what the host sent. */
  lemma DisplayIsFed(mem: seq<u8>, data: u8, h: Hw, ms: seq<Move>, p: Path, d: Display)
    requires RunsTo(mem, data, h, ms, p) && Drained(p)
    ensures Device(R.FsmOf(p.l.r.h), ShowAll(d, p.l.heard)) == Feed(Device(R.FsmOf(h), d), p.sent)
  {
    DisplayHearsTheHost(mem, data, h, ms, p);
  }

  /**
   * From the driver's frames to the display, at any time: if what the host sent before leaves the
   * device waiting for a command and showing the old frame, and the host then sends the packets that
   * `encode_diff` makes of the two frames, the display shows the new one after draining.
   */
  lemma FrameReachesDisplay(mem: seq<u8>, data: u8, h: Hw, ms: seq<Move>, p: Path, d: Display, before: seq<u8>,
                            c: Config, newFrame: bool, oldBuf: seq<u8>, newBuf: seq<u8>, ps: seq<Packet>)
    requires RunsTo(mem, data, h, ms, p) && p.sent == before + WireAll(ps) && Drained(p)
    requires |oldBuf| == FB_SIZE && |newBuf| == FB_SIZE
    requires ps == DiffPackets(c, newFrame, oldBuf, newBuf, 0, FB_SIZE)
    requires var d' := Feed(Device(R.FsmOf(h), d), before); d'.fsm.op.CodeLow? && Shows(d', c.bitrev, oldBuf)
    ensures Shows(Device(R.FsmOf(p.l.r.h), ShowAll(d, p.l.heard)), c.bitrev, newBuf)
  {
    var d0 := Device(R.FsmOf(h), d);
    DisplayIsFed(mem, data, h, ms, p, d);
    FeedConcat(d0, before, WireAll(ps));
    EncodeDiffDrivesDevice(Feed(d0, before), c, newFrame, oldBuf, newBuf);
  }

  /** The first frame after a reset, which a clear packet precedes: the display may show anything before. */
  lemma FullRefreshReachesDisplay(mem: seq<u8>, data: u8, h: Hw, ms: seq<Move>, p: Path, d: Display,
                                  flags: u8, native: bool, frame: seq<u8>)
    requires RunsTo(mem, data, h, ms, p) && Drained(p) && |d.mem| >= FB_SIZE && |frame| == FB_SIZE
    requires p.sent == WireAll(D.Redraw(true, flags, native, Zeros(), frame))
    ensures Shows(Device(R.FsmOf(p.l.r.h), ShowAll(d, p.l.heard)), native, frame)
  {
    DisplayIsFed(mem, data, h, ms, p, d);
    D.RedrawArrives(Device(R.FsmOf(h), d), true, flags, native, Zeros(), frame);
  }

  /**
   * From the drainer to the wires: the host sends what the drainer puts on the link in any run
   * without harmful steps and resets of the FPGA. After draining, the display is the device of the
   * drainer's state machine, and if the drainer is at rest with nothing pending, it shows the newest
   * frame.
   */
  lemma DrainerReachesDisplay(mem: seq<u8>, data: u8, h: Hw, ms: seq<Move>, p: Path,
                              t: S.Tracked, es: seq<D.Action>, u: S.Tracked)
    requires RunsTo(mem, data, h, ms, p) && Drained(p)
    requires S.Safe(t) && S.Runs(t, es, u) && (forall e | e in es :: !e.Reset?)
    requires t.s.device.fsm == R.FsmOf(h) && p.sent == S.SentAll(t, es)
    ensures u.s.device == Device(R.FsmOf(p.l.r.h), ShowAll(t.s.device.display, p.l.heard))
    ensures !u.s.sending && !u.s.dirty && !u.s.forceFull ==> Shows(u.s.device, u.s.native, u.s.dst0)
  {
    DisplayIsFed(mem, data, h, ms, p, t.s.device.display);
    S.RunFeeds(t, es, u);
    S.RunIsSafe(t, es, u);
    if !u.s.sending && !u.s.dirty && !u.s.forceFull {
      D.AtRest(u.s);
    }
  }
}
