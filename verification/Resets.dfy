/** Resets of the FPGA in the middle of a send: which cuts they survive, and a frame that meets a bad one. */
module Resets {
  import opened Bytes
  import opened Packets
  import opened DiffScan
  import opened RleScan
  import opened Encoder
  import opened CommandFsm
  import opened EndToEnd
  import opened Cuts
  import opened Drainer
  import opened SizeBound
  import S = Sends

  // ---- Between the two commands of a packet ----

  lemma DropInto(x: seq<u8>, y: seq<u8>, z: seq<u8>, n: nat)
    requires n <= |y|
    ensures (x + (y + z))[|x| + n..] == y[n..] + z
  {}

  lemma RestAfterHeader(s: State, k: nat)
    requires s.pos <= |WireAll(s.out)| && k < |s.out| && DriverPacket(s.out[k])
    requires s.pos == |WireAll(s.out[..k])| + BOS_SIZE
    ensures var p := s.out[k];
            Rest(s) == [p.hdr.lenLo, p.hdr.lenHi] + (p.data + WireAll(s.out[k + 1..]))
  {
    var p, before, rest := s.out[k], s.out[..k], s.out[k..];
    assert s.out == before + rest && rest[0] == p && rest[1..] == s.out[k + 1..];
    WireAllConcat(before, rest);
    DropInto(WireAll(before), Wire(p), WireAll(rest[1..]), BOS_SIZE);
    HeaderTail(p, WireAll(rest[1..]));
  }

  lemma HeaderTail(p: Packet, later: seq<u8>)
    requires p.hdr.Data?
    ensures |Wire(p)| >= BOS_SIZE
    ensures Wire(p)[BOS_SIZE..] + later == [p.hdr.lenLo, p.hdr.lenHi] + (p.data + later)
  {}

  /** A literal payload needs no mode, so a fresh interpreter reads it to its end. */
  lemma LiteralSurvives(p: Packet, later: seq<Packet>)
    requires DriverPacket(p) && !CmdRle(p.hdr.cmd) && AllProper(later)
    ensures Interpret(INITIAL, [p.hdr.lenLo, p.hdr.lenHi] + (p.data + WireAll(later))).0.op.CodeLow?
  {
    var f := INITIAL.(op := ImagePayload(PktLen(p.hdr)));
    ImageHeader(INITIAL, p.hdr.lenLo, p.hdr.lenHi, p.data + WireAll(later));
    InterpretConcat(f, p.data, WireAll(later));
    LiteralPayload(f, p.data);
    AllWaits(INITIAL, later);
  }

  /** A repeated payload loses its mode: the interpreter takes what follows for more of it. */
  lemma RepeatSwallows(p: Packet, later: seq<Packet>)
    requires DriverPacket(p) && CmdRle(p.hdr.cmd) && PktLen(p.hdr) > 1 + |WireAll(later)|
    ensures !Interpret(INITIAL, [p.hdr.lenLo, p.hdr.lenHi] + (p.data + WireAll(later))).0.op.CodeLow?
  {
    ImageHeader(INITIAL, p.hdr.lenLo, p.hdr.lenHi, p.data + WireAll(later));
    ImagePartial(INITIAL.(op := ImagePayload(PktLen(p.hdr))), p.data + WireAll(later));
  }

  /**
   * A reset between the BOS command and the image command of a packet: harmless if the payload is
   * literal; if it is a repeated byte that stands for more bytes than are left, it is not.
   */
  lemma ResetInsideHeaderIff(s: State, display: Display, k: nat)
    requires Coherent(s) && Enabled(s, Reset(display)) && AllProper(s.out)
    requires k < |s.out| && s.out[k].hdr.Data? && s.pos == |WireAll(s.out[..k])| + BOS_SIZE
    requires CmdRle(s.out[k].hdr.cmd) ==> PktLen(s.out[k].hdr) > 1 + |WireAll(s.out[k + 1..])|
    ensures Coherent(Next(s, Reset(display))) <==> !CmdRle(s.out[k].hdr.cmd)
  {
    assert Proper(s.out[k]);
    RestAfterHeader(s, k);
    ResetKeepsIff(s, display);
    if CmdRle(s.out[k].hdr.cmd) {
      RepeatSwallows(s.out[k], s.out[k + 1..]);
    } else {
      LiteralSurvives(s.out[k], s.out[k + 1..]);
    }
  }

  // ---- A frame whose last byte goes out alone ----

  /** With the clear packet and the header of one literal packet, one byte more than a chunk. */
  const LONE := SPI_CHUNK_MAX - S.CLEAR_SIZE - HDR_SIZE_DATA + 1

  /** Different from its neighbours and not zero up to `LONE`, the last of these bytes even, and then blank. */
  ghost predicate Straddles(f: seq<u8>) {
    && |f| == FB_SIZE && f[LONE - 1] % 2 == 0
    && (forall i | 0 <= i < FB_SIZE :: f[i] != 0 <==> i < LONE)
    && (forall i | 0 < i < LONE :: f[i - 1] != f[i])
  }

  /** For example, 1 and 2 in turn. */
  function Straddling(): (f: seq<u8>)
    ensures Straddles(f)
  {
    seq(FB_SIZE, i => if i < LONE then 1 + i % 2 else 0)
  }

  lemma {:induction false} NoRuns(buf: seq<u8>, i: nat)
    requires i <= |buf| && forall k | 0 < k < |buf| :: buf[k - 1] != buf[k]
    ensures Split(buf, RLE_MIN_RUN, 0, i) == Literal(0, |buf|)
    decreases |buf| - i
  {
    if i < |buf| {
      assert RunEnd(buf, i) == i + 1;
      NoRuns(buf, i + 1);
    }
  }

  lemma OneLiteral(c: Config, newFrame: bool, buf: seq<u8>)
    requires 0 < |buf| <= FB_SIZE && forall k | 0 < k < |buf| :: buf[k - 1] != buf[k]
    ensures Inside(Segment(0, |buf|, false), |buf|)
    ensures SpanPackets(c, newFrame, 0, buf) == [SegmentPacket(c, newFrame, 0, buf, Segment(0, |buf|, false))]
  {
    NoRuns(buf, 0);
    SegmentsInside(buf, RLE_MIN_RUN);
    assert Segments(buf, RLE_MIN_RUN) == [Segment(0, |buf|, false)];
  }

  lemma StraddlingRegion(f: seq<u8>, a: seq<u8>)
    requires Straddles(f) && a == Zeros()
    ensures ScanRegions(a, f, 0, FB_SIZE) == [Region(0, LONE)]
  {
    assert a[0..] == a && f[0..] == f;
    OnePrefix(a, f, HDR_SIZE_DATA, FB_SIZE, LONE, 1);
  }

  /** The difference from a blank frame is one literal packet. */
  lemma StraddlingPacket(c: Config, newFrame: bool, f: seq<u8>) returns (p: Packet)
    requires Straddles(f)
    ensures DiffPackets(c, newFrame, Zeros(), f, 0, FB_SIZE) == [p]
    ensures p.hdr.Data? && p.data == f[..LONE]
  {
    var buf := f[..LONE];
    StraddlingRegion(f, Zeros());
    OneRegion(c, newFrame, f, LONE);
    OneLiteral(c, newFrame, buf);
    p := SegmentPacket(c, newFrame, 0, buf, Segment(0, |buf|, false));
    assert buf[0..|buf|] == buf;
  }

  lemma TwoPackets(p: Packet, q: Packet)
    ensures WireAll([p, q]) == Wire(p) + Wire(q)
  {
    S.OnlyOne(p);
    WireAllSnoc([p], q);
    assert [p] + [q] == [p, q];
  }

  /** After one chunk of a full refresh with such a frame, one even byte is left. */
  lemma OneByteLeft(s: State)
    requires Coherent(s) && !s.sending && s.dirty && s.forceFull && s.enabled && s.online && Straddles(s.dst0)
    ensures var w := Wake(s, true, true);
            && w.sending && w.pos == 0 && w.pos <= |WireAll(w.out)|
            && Rest(SendChunk(w)) == [s.dst0[LONE - 1]]
  {
    var clear := ClearPacket(s.native);
    var p := StraddlingPacket(Config(s.flags, s.native), false, s.dst0);
    var ps := FramePackets(s);
    assert ps == [clear, p];
    TwoPackets(clear, p);
    assert |Wire(clear)| == S.CLEAR_SIZE && |Wire(p)| == HDR_SIZE_DATA + LONE;
    assert WireAll(ps)[SPI_CHUNK_MAX..] == [s.dst0[LONE - 1]];
  }

  /** The display is unplugged after the first chunk. */
  const UNPLUGGED := [WakeUp(true, true), Chunk, Disconnect]

  /** A state in which all this can happen: such a frame, and everything else as after probing and enabling. */
  function Poised(device: Device): State {
    State(Straddling(), Zeros(), Zeros(), true, true, 0, 0, false, true, true, [], 0, false, device)
  }

  lemma PoisedIsCoherent(device: Device)
    requires device.fsm.op.CodeLow? && |device.display.mem| >= FB_SIZE
    ensures Coherent(Poised(device))
  {
    assert Rest(Poised(device)) == [];
    FeedNothing(device);
  }

  /** One more step in front of a run. */
  lemma RunsFrom(t: S.Tracked, e: Action, es: seq<Action>, u: S.Tracked)
    requires S.Logged(t) && S.Allowed(t, e) && S.Logged(S.Track(t, e)) && S.Runs(S.Track(t, e), es, u)
    ensures S.Runs(t, [e] + es, u)
  {
    assert ([e] + es)[1..] == es;
  }

  ghost predicate Steps(t: S.Tracked, e: Action, u: S.Tracked) {
    S.Logged(t) && S.Allowed(t, e) && u == S.Track(t, e) && S.Logged(u)
  }

  lemma ThreeSteps(t0: S.Tracked, e1: Action, t1: S.Tracked, e2: Action, t2: S.Tracked, e3: Action, t3: S.Tracked)
    requires Steps(t0, e1, t1) && Steps(t1, e2, t2) && Steps(t2, e3, t3)
    ensures S.Runs(t0, [e1, e2, e3], t3)
  {
    RunsFrom(t2, e3, [], t3);
    assert [e3] + [] == [e3] && [e2] + [e3] == [e2, e3] && [e1] + [e2, e3] == [e1, e2, e3];
    RunsFrom(t1, e2, [e3], t3);
    RunsFrom(t0, e1, [e2, e3], t3);
  }

  lemma FirstChunk(s: State) returns (t: S.Tracked, u: S.Tracked)
    requires Coherent(s) && !s.sending && s.dirty && s.forceFull && s.enabled && s.online && Straddles(s.dst0)
    ensures S.Allowed(S.Idle(s), WakeUp(true, true)) && t == S.Track(S.Idle(s), WakeUp(true, true)) && S.Safe(t)
    ensures S.Allowed(t, Chunk) && u == S.Track(t, Chunk) && S.Safe(u)
    ensures u.s.sending && Rest(u.s) == [s.dst0[LONE - 1]]
  {
    OneByteLeft(s);
    S.StepKeepsIff(S.Idle(s), WakeUp(true, true));
    t := S.Track(S.Idle(s), WakeUp(true, true));
    S.StepKeepsIff(t, Chunk);
    u := S.Track(t, Chunk);
  }

  lemma Unplug(t: S.Tracked) returns (u: S.Tracked)
    requires S.Safe(t) && t.s.sending
    ensures S.Allowed(t, Disconnect) && u == S.Track(t, Disconnect) && S.Safe(u)
    ensures u.s.sending && !u.s.online && Rest(u.s) == Rest(t.s)
  {
    S.StepKeepsIff(t, Disconnect);
    u := S.Track(t, Disconnect);
  }

  lemma UnpluggedRuns(s: State) returns (t: S.Tracked)
    requires Coherent(s) && !s.sending && s.dirty && s.forceFull && s.enabled && s.online && Straddles(s.dst0)
    ensures S.Runs(S.Idle(s), UNPLUGGED, t) && S.Safe(t) && t.s.sending && !t.s.online
    ensures Rest(t.s) == [s.dst0[LONE - 1]]
  {
    var t1, t2 := FirstChunk(s);
    t := Unplug(t2);
    ThreeSteps(S.Idle(s), WakeUp(true, true), t1, Chunk, t2, Disconnect, t);
  }

  /**
   * A run that a reset breaks: a full refresh whose buffer is one byte longer than a chunk, the
   * display unplugged after the first chunk, and the FPGA reset with that byte still to be sent.
   */
  lemma ResetBreaksRun(device: Device, display: Display) returns (t: S.Tracked)
    requires device.fsm.op.CodeLow? && |device.display.mem| >= FB_SIZE && |display.mem| >= FB_SIZE
    ensures Coherent(Poised(device)) && S.Runs(S.Idle(Poised(device)), UNPLUGGED, t)
    ensures Coherent(t.s) && Enabled(t.s, Reset(display)) && !Coherent(Next(t.s, Reset(display)))
  {
    PoisedIsCoherent(device);
    t := UnpluggedRuns(Poised(device));
    ResetInsidePacket(t.s, display, Straddling()[LONE - 1]);
  }
}
