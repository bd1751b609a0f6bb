/**
 * The new-frame mark from the driver to the gate: which packet of a frame carries it, and that it
 * makes exactly one payload of the frame wait for a display cycle to begin.
 */
module FrameMark {
  import opened Bytes
  import opened Packets
  import opened Encoder
  import opened CommandFsm
  import opened EndToEnd
  import opened Cuts
  import opened Drainer
  import opened PrivEye
  import opened Refinement
  import opened FrameGate

  // ---- In the packets ----

  lemma DiffMark(c: Config, newFrame: bool, reference: seq<u8>, frame: seq<u8>, ps: seq<Packet>, k: nat)
    requires |reference| == FB_SIZE && |frame| == FB_SIZE && k < |ps|
    requires ps == DiffPackets(c, newFrame, reference, frame, 0, FB_SIZE)
    ensures DriverPacket(ps[k]) && (CmdNewFrame(ps[k].hdr.cmd) <==> newFrame && k == 0)
  {
    DiffRedraws(c, newFrame, reference, frame);
    DrawsAt(c, newFrame, frame, 0, ps, FB_SIZE, k);
  }

  lemma ClearMark(native: bool)
    ensures DriverPacket(ClearPacket(native)) && CmdNewFrame(ClearPacket(native).hdr.cmd)
  {
    InitDataFields(0, true, true, native, 0, FB_SIZE);
  }

  /** The first packet of a frame is marked, be it the clear packet or a difference, and no other. */
  lemma FirstIsMarked(s: State, k: nat)
    requires WellTyped(s) && k < |FramePackets(s)|
    ensures DriverPacket(FramePackets(s)[k])
    ensures CmdNewFrame(FramePackets(s)[k].hdr.cmd) <==> k == 0
  {
    var c := Config(s.flags, s.native);
    var ps := DiffPackets(c, !s.forceFull, Reference(s), s.dst0, 0, FB_SIZE);
    if !s.forceFull {
      assert FramePackets(s) == [] + ps == ps;
      DiffMark(c, true, Reference(s), s.dst0, ps, k);
    } else if k > 0 {
      assert FramePackets(s)[k] == ([ClearPacket(s.native)] + ps)[k] == ps[k - 1];
      DiffMark(c, false, Reference(s), s.dst0, ps, k - 1);
    } else {
      ClearMark(s.native);
    }
  }

  // ---- In the byte stream ----

  /** The byte completes an image command with bytes to follow, in new-frame mode. */
  predicate Marks(f: Fsm, b: u8) {
    f.op.CodeHigh? && f.newFrame && CommandFsm.Step(f, b).0.op.ImagePayload?
  }

  /** How many images of the stream are marked. */
  function Marked(f: Fsm, s: seq<u8>): nat
    decreases |s|
  {
    if s == [] then 0
    else (if Marks(f, s[0]) then 1 else 0) + Marked(CommandFsm.Step(f, s[0]).0, s[1..])
  }

  lemma {:induction false} MarkedConcat(f: Fsm, s: seq<u8>, t: seq<u8>)
    ensures Marked(f, s + t) == Marked(f, s) + Marked(Interpret(f, s).0, t)
    decreases |s|
  {
    if s == [] {
      assert s + t == t;
    } else {
      assert (s + t)[1..] == s[1..] + t;
      MarkedConcat(CommandFsm.Step(f, s[0]).0, s[1..], t);
    }
  }

  lemma {:induction false} PayloadMarksNothing(f: Fsm, s: seq<u8>)
    requires (f.op.BosPayload? || f.op.ImagePayload?) && |s| <= if f.op.ImagePayload? && f.dup then 1 else f.op.left
    ensures Marked(f, s) == 0
    decreases |s|
  {
    if s != [] {
      var g := CommandFsm.Step(f, s[0]).0;
      if s[1..] != [] {
        PayloadMarksNothing(g, s[1..]);
      }
    }
  }

  lemma BosMarksNothing(f: Fsm, p: Packet)
    requires f.op.CodeLow? && ProperData(p)
    ensures Marked(f, Wire(p)[..BOS_SIZE]) == 0
    ensures Interpret(f, Wire(p)[..BOS_SIZE]).0 == ModesOf(p.hdr.cmd)
  {
    var h := p.hdr;
    var w := Wire(p)[..BOS_SIZE];
    assert w == [h.cmd, h.flags, h.addrHi, h.addrLo] + [] && w[1..] == [h.flags, h.addrHi, h.addrLo];
    BosHeader(f, h.cmd, h.flags, h.addrHi, h.addrLo, []);
    BosStart(f, h.cmd);
    PayloadMarksNothing(CommandFsm.Step(f, h.cmd).0, w[1..]);
  }

  lemma ImageMarks(g: Fsm, p: Packet)
    requires ProperData(p) && g == ModesOf(p.hdr.cmd)
    ensures Marked(g, [p.hdr.lenLo, p.hdr.lenHi] + p.data) == if g.newFrame then 1 else 0
  {
    var lenLo, lenHi := p.hdr.lenLo, p.hdr.lenHi;
    var w := [lenLo, lenHi] + p.data;
    var f1 := g.(op := CodeHigh(lenLo / 2));
    var f2 := g.(op := ImagePayload(PktLen(p.hdr)));
    assert w[1..] == [lenHi] + p.data && w[1..][1..] == p.data;
    assert CommandFsm.Step(g, lenLo).0 == f1 && CommandFsm.Step(f1, lenHi).0 == f2;
    PayloadMarksNothing(f2, p.data);
  }

  lemma PacketMarks(f: Fsm, p: Packet)
    requires f.op.CodeLow? && ProperData(p)
    ensures Marked(f, Wire(p)) == if CmdNewFrame(p.hdr.cmd) then 1 else 0
    ensures Interpret(f, Wire(p)).0.op.CodeLow?
  {
    var bos, image := Wire(p)[..BOS_SIZE], [p.hdr.lenLo, p.hdr.lenHi] + p.data;
    assert Wire(p) == bos + image;
    MarkedConcat(f, bos, image);
    BosMarksNothing(f, p);
    ImageMarks(ModesOf(p.hdr.cmd), p);
    DataPacketEvents(f, p);
  }

  /** Only the first packet can be marked. */
  ghost predicate MarkedFirst(ps: seq<Packet>, newFrame: bool) {
    forall k | 0 <= k < |ps| :: DriverPacket(ps[k]) && (CmdNewFrame(ps[k].hdr.cmd) <==> newFrame && k == 0)
  }

  lemma {:induction false} PacketsMark(f: Fsm, ps: seq<Packet>, newFrame: bool)
    requires f.op.CodeLow? && MarkedFirst(ps, newFrame)
    ensures Marked(f, WireAll(ps)) == if newFrame && ps != [] then 1 else 0
    decreases |ps|
  {
    if ps != [] {
      PacketMarks(f, ps[0]);
      MarkedConcat(f, Wire(ps[0]), WireAll(ps[1..]));
      assert MarkedFirst(ps[1..], false);
      PacketsMark(Interpret(f, Wire(ps[0])).0, ps[1..], false);
    }
  }

  /** The bytes of a frame hold exactly one marked image. */
  lemma FrameMarksOnce(s: State, f: Fsm)
    requires WellTyped(s) && f.op.CodeLow? && FramePackets(s) != []
    ensures Marked(f, WireAll(FramePackets(s))) == 1
  {
    var ps := FramePackets(s);
    forall k | 0 <= k < |ps|
      ensures DriverPacket(ps[k]) && (CmdNewFrame(ps[k].hdr.cmd) <==> k == 0)
    {
      FirstIsMarked(s, k);
    }
    PacketsMark(f, ps, true);
  }

  // ---- At the gate ----

  /** A marked image with bytes waits to start. */
  predicate Pending(h: Hw) {
    h.ctl.op.OpWait? && NewImage(h.ctl) && h.ctl.bytes > 0
  }

  function One(p: bool): nat {
    if p then 1 else 0
  }

  lemma StartsInWait(h: Hw, e: Env, f: Fsm)
    requires Sound(h, f) && Calm(e) && h.ctl.op.OpWait?
    ensures One(Starts(h, e)) + One(Pending(Edge(h, e))) == One(Pending(h)) && !Marks(f, h.reader.bus)
  {}

  lemma StartsInCodeHigh(h: Hw, e: Env, f: Fsm)
    requires Sound(h, f) && Calm(e) && h.ctl.op.OpCodeHigh?
    ensures !Starts(h, e) && !Pending(h)
    ensures Pending(Edge(h, e)) <==> Takes(h, e) && Marks(f, h.reader.bus)
  {
    if Send(h) {
      assert Edge(h, e).ctl.bytes == h.reader.bus * 128 + h.ctl.bytes;
    }
  }

  lemma StartsElsewhere(h: Hw, e: Env, f: Fsm)
    requires Sound(h, f) && Calm(e) && (h.ctl.op.OpCodeLow? || h.ctl.op.OpPayload?)
    ensures !Starts(h, e) && !Pending(h) && !Pending(Edge(h, e)) && !Marks(f, h.reader.bus)
  {}

  /** Each marked image of the stream waits once and starts once. */
  lemma EdgeStarts(h: Hw, e: Env, f: Fsm)
    requires Sound(h, f) && Calm(e)
    ensures One(Starts(h, e)) + One(Pending(Edge(h, e)))
         == One(Pending(h)) + One(Takes(h, e) && Marks(f, h.reader.bus))
  {
    match h.ctl.op
    case OpWait => StartsInWait(h, e, f);
    case OpCodeHigh => StartsInCodeHigh(h, e, f);
    case _ => StartsElsewhere(h, e, f);
  }

  lemma MarkedSnoc(r: Run, e: Env)
    requires InStep(r) && Calm(e)
    ensures Marked(r.from, RunEdge(r, e).taken)
         == Marked(r.from, r.taken) + One(Takes(r.h, e) && Marks(Interpret(r.from, r.taken).0, r.h.reader.bus))
  {
    if Takes(r.h, e) {
      MarkedConcat(r.from, r.taken, [r.h.reader.bus]);
      assert [r.h.reader.bus][1..] == [];
    } else {
      assert r.taken + [] == r.taken;
    }
  }

  lemma {:induction false} StartsAreMarks(r: Run, es: seq<Env>)
    requires InStep(r) && Undisturbed(es)
    ensures var s := RunAll(r, es);
            CountStarts(r.h, es) + One(Pending(s.h)) + Marked(r.from, r.taken)
            == One(Pending(r.h)) + Marked(r.from, s.taken)
    decreases |es|
  {
    if es != [] {
      EdgeInStep(r, es[0]);
      EdgeStarts(r.h, es[0], Interpret(r.from, r.taken).0);
      MarkedSnoc(r, es[0]);
      StartsAreMarks(RunEdge(r, es[0]), es[1..]);
    }
  }

  /** From rest to rest, each marked image that was read has started once. */
  lemma StartsWhatIsMarked(h: Hw, es: seq<Env>)
    requires Rested(h) && Undisturbed(es) && Quiet(RunAll(Start(h), es).h)
    ensures CountStarts(h, es) == Marked(FsmOf(h), RunAll(Start(h), es).popped)
  {
    StartInStep(h);
    InStepRun(Start(h), es);
    StartsAreMarks(Start(h), es);
    QuietTookAll(RunAll(Start(h), es));
  }

  lemma QuietTookAll(r: Run)
    requires InStep(r) && Quiet(r.h)
    ensures r.taken == r.popped && !Pending(r.h)
  {}

  /**
   * From the driver to the gate: over every undisturbed run from rest to rest in which the controller
   * reads exactly one frame, exactly one payload waits for a display cycle to begin and starts then,
   * the frame's first; so such a run has a cycle that begins.
   */
  lemma FrameWaitsOnce(s: State, h: Hw, es: seq<Env>)
    requires WellTyped(s) && FramePackets(s) != []
    requires Rested(h) && Undisturbed(es) && Quiet(RunAll(Start(h), es).h)
    requires RunAll(Start(h), es).popped == WireAll(FramePackets(s))
    ensures CountStarts(h, es) == 1 <= CountOpens(es)
  {
    StartsWhatIsMarked(h, es);
    FrameMarksOnce(s, FsmOf(h));
    RestIsUngated(h);
    StartsWithinOpens(h, es);
  }

  lemma RestIsUngated(h: Hw)
    requires Rested(h)
    ensures Gated(h) && !Armed(h)
  {}
}
