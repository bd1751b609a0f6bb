/**
 * The drainer as the host of the byte path: one look at DEV_RDY before each chunk is all the FIFO
 * asks for, so what the drainer sends is never lost.
 */
module HostPath {
  import opened Bytes
  import opened CommandFsm
  import opened EndToEnd
  import opened PrivEye
  import opened FlowControl
  import opened BytePath
  import F = AsyncFifo
  import R = Refinement
  import D = Drainer
  import S = Sends

  // ---- What the drainer puts on the link ----

  /** What goes out after one READY is never more than DEV_RDY promises room for. */
  lemma ChunkHasRoom(s: D.State, e: D.Action)
    requires D.WellTyped(s) && D.Enabled(s, e)
    ensures |S.Sent(s, e)| <= BUF_MIN_SPACE
  {}

  predicate Transfers(e: D.Action) {
    e.Chunk? || e.SpiError?
  }

  /** The SPI transfers of a run, whole or broken off. */
  ghost function Chunks(t: S.Tracked, es: seq<D.Action>): seq<seq<u8>>
    requires S.Logged(t)
    decreases |es|
  {
    if es == [] || !S.Allowed(t, es[0]) || !S.Logged(S.Track(t, es[0])) then []
    else (if Transfers(es[0]) then [S.Sent(t.s, es[0])] else []) + Chunks(S.Track(t, es[0]), es[1..])
  }

  function Concat(chunks: seq<seq<u8>>): seq<u8> {
    if chunks == [] then [] else chunks[0] + Concat(chunks[1..])
  }

  predicate HaveRoom(chunks: seq<seq<u8>>) {
    forall k | 0 <= k < |chunks| :: |chunks[k]| <= BUF_MIN_SPACE
  }

  lemma {:induction false} ChunksAreSent(t: S.Tracked, es: seq<D.Action>)
    requires S.Logged(t)
    ensures Concat(Chunks(t, es)) == S.SentAll(t, es) && HaveRoom(Chunks(t, es))
    decreases |es|
  {
    if es != [] && S.Allowed(t, es[0]) && S.Logged(S.Track(t, es[0])) {
      var later := Chunks(S.Track(t, es[0]), es[1..]);
      ChunksAreSent(S.Track(t, es[0]), es[1..]);
      ChunkHasRoom(t.s, es[0]);
      if Transfers(es[0]) {
        assert Chunks(t, es) == [S.Sent(t.s, es[0])] + later && Chunks(t, es)[1..] == later;
      } else {
        assert Chunks(t, es) == later && S.Sent(t.s, es[0]) == [];
      }
    }
  }

  // ---- A host that looks before each chunk ----

  /** What the FIFO, the controller and the display do, whatever the host does. */
  ghost predicate Environment(p: Path, m: Move)
    requires Fits(p)
  {
    && Wired(p, m)
    && match m.act
       case Look => DevReady(p.link.run.f) && |p.link.run.accepted| <= p.link.run.seen.wa + UNSEEN
       case Tick(e) => F.Plausible(EyeFifo(), p.link.run.f, e)
  }

  ghost predicate AllEnvironment(p: Path, ms: seq<Move>)
    requires Fits(p)
    decreases |ms|
  {
    ms == [] || (Environment(p, ms[0]) && AllEnvironment(BytePath.Step(p, ms[0]), ms[1..]))
  }

  /**
   * What the host does: it looks at DEV_RDY once before each chunk, after the chunk before is out,
   * and then clocks the chunk's bytes in, in order; `cur` is what is left of the current one.
   */
  predicate Hosts(ms: seq<Move>, chunks: seq<seq<u8>>, cur: seq<u8>)
    decreases |ms|
  {
    if ms == [] then true
    else
      match ms[0].act
      case Look => cur == [] && chunks != [] && Hosts(ms[1..], chunks[1..], chunks[0])
      case Tick(e) =>
        if e.wEdge then cur != [] && e.data == cur[0] && Hosts(ms[1..], chunks, cur[1..])
        else Hosts(ms[1..], chunks, cur)
  }

  /** Such a host keeps to the credit protocol, and sends its chunks in order. */
  lemma {:induction false} HostIsLegal(p: Path, ms: seq<Move>, chunks: seq<seq<u8>>, cur: seq<u8>)
    requires Fits(p) && AllEnvironment(p, ms) && Hosts(ms, chunks, cur)
    requires |cur| <= p.link.credit && HaveRoom(chunks)
    ensures AllLegal(p, ms) && StepAll(p, ms).sent <= p.sent + (cur + Concat(chunks))
    decreases |ms|
  {
    if ms != [] {
      var m, q := ms[0], BytePath.Step(p, ms[0]);
      match m.act
      case Look =>
        HostIsLegal(q, ms[1..], chunks[1..], chunks[0]);
        assert [] + Concat(chunks) == chunks[0] + Concat(chunks[1..]);
      case Tick(e) =>
        if e.wEdge {
          HostIsLegal(q, ms[1..], chunks, cur[1..]);
          assert p.sent + [e.data] + (cur[1..] + Concat(chunks)) == p.sent + (cur + Concat(chunks));
        } else {
          HostIsLegal(q, ms[1..], chunks, cur);
        }
    }
  }

  /**
   * Any run of the drainer between two resets of the FPGA, as the host of the byte path: at every
   * moment the FIFO is not full and has accepted every byte; and after draining, the display is the
   * device of the drainer's state machine, which at rest with nothing pending shows the newest frame.
   */
  lemma DrainerDrivesDisplay(mem: seq<u8>, data: u8, h: Hw, ms: seq<Move>, p: Path,
                             t: S.Tracked, es: seq<D.Action>, u: S.Tracked)
    requires F.Sane(EyeFifo()) && |mem| == F.Depth(EyeFifo()) && R.Rested(h)
    requires AllEnvironment(Begin(mem, data, h), ms) && p == StepAll(Begin(mem, data, h), ms)
    requires S.Safe(t) && S.Runs(t, es, u) && (forall e | e in es :: !e.Reset?)
    requires t.s.device.fsm == R.FsmOf(h) && Hosts(ms, Chunks(t, es), [])
    ensures RunsTo(mem, data, h, ms, p) && !p.link.run.f.w.full
    ensures p.link.run.accepted == p.sent <= S.SentAll(t, es)
    ensures Drained(p) && p.sent == S.SentAll(t, es) ==>
              && u.s.device == Device(R.FsmOf(p.l.r.h), ShowAll(t.s.device.display, p.l.heard))
              && (!u.s.sending && !u.s.dirty && !u.s.forceFull ==> Shows(u.s.device, u.s.native, u.s.dst0))
  {
    var b := Begin(mem, data, h);
    ChunksAreSent(t, es);
    HostIsLegal(b, ms, Chunks(t, es), []);
    BeginIsJoined(mem, data, h);
    RunIsJoined(b, ms);
    assert [] + ([] + Concat(Chunks(t, es))) == S.SentAll(t, es);
    if Drained(p) && p.sent == S.SentAll(t, es) {
      DrainerReachesDisplay(mem, data, h, ms, p, t, es, u);
    }
  }
}
