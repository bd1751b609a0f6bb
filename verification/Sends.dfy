/**
 * Runs of the drainer, with the history of the current send: when a send that breaks off does no
 * harm, what holds over whole runs, and what the device has been told.
 */
module Sends {
  import opened Bytes
  import opened Packets
  import opened Encoder
  import opened CommandFsm
  import opened EndToEnd
  import opened Cuts
  import opened Drainer

  /**
   * What a send began with: the device and where in the buffer it started, which is later than 0
   * only after a reset during the send; whether a frame or a flags-only packet was encoded, after a
   * clear packet if `full`, with which flags and mode. `held` are the flags the device is known to
   * hold between sends. The code reads none of this.
   */
  datatype Log = Log(from: Device, cut: nat, frame: bool, full: bool, flags: u8, native: bool, held: u8)

  datatype Tracked = Tracked(s: State, log: Log)

  /** The size of the clear packet. */
  const CLEAR_SIZE := HDR_SIZE_DATA + 1

  /** The packets of the send, which lead from `reference` to `frame` if they are not flags only. */
  function Encoded(log: Log, reference: seq<u8>, frame: seq<u8>): seq<Packet>
    requires |reference| == FB_SIZE && |frame| == FB_SIZE
  {
    if log.frame then Redraw(log.full, log.flags, log.native, reference, frame)
    else [InitFlagsOnly(log.flags)]
  }

  /** The flags the device holds when the send stops after `n` bytes. */
  function HeldAfter(t: Tracked, n: nat): u8
    requires t.log.cut <= n <= |WireAll(t.s.out)|
  {
    if t.log.cut > 0 then Feed(t.log.from, WireAll(t.s.out)[t.log.cut..n]).display.flags
    else if n == 0 then t.log.held
    else if t.log.frame && t.log.full && n <= CLEAR_SIZE then 0
    else t.log.flags
  }

  ghost predicate Logged(t: Tracked) {
    WellTyped(t.s) && t.log.cut <= t.s.pos
  }

  ghost function NextLog(t: Tracked, e: Action): Log
    requires Logged(t) && Enabled(t.s, e)
  {
    match e
    case WakeUp(hw, ready) =>
      if Wake(t.s, hw, ready).sending
      then Log(t.s.device, 0, hw && EncodeFrame(t.s).out != [], t.s.forceFull, t.s.flags, t.s.native, t.log.held)
      else t.log.(cut := 0)
    case Reset(display) => t.log.(from := Device(INITIAL, display), cut := t.s.pos, held := display.flags)
    case Timeout => t.log.(cut := 0, held := HeldAfter(t, t.s.pos))
    case SpiError(got) => t.log.(cut := 0, held := HeldAfter(t, t.s.pos + got))
    case Finished => t.log.(cut := 0, held := HeldAfter(t, t.s.pos))
    case _ => t.log
  }

  ghost function Track(t: Tracked, e: Action): Tracked
    requires Logged(t) && Enabled(t.s, e)
  {
    Tracked(Next(t.s, e), NextLog(t, e))
  }

  /** The log tells what is in the buffer, and where the device started. */
  ghost predicate Describes(log: Log, out: seq<Packet>, reference: seq<u8>, frame: seq<u8>,
                            forceFull: bool, native: bool)
    requires |reference| == FB_SIZE && |frame| == FB_SIZE
  {
    && log.from.fsm.op.CodeLow? && |log.from.display.mem| >= FB_SIZE
    && out == Encoded(log, reference, frame) && out != []
    && (log.frame && log.full ==> reference == Zeros())
    && (log.cut > 0 ==> forceFull)
    && (log.cut == 0 ==> log.from.display.flags == log.held)
    && (!forceFull ==> native == log.native)
    && (!forceFull && log.frame && !log.full ==> Shows(log.from, native, reference))
  }

  /** The device is what the bytes made of it that went out since. */
  ghost predicate Fed(log: Log, out: seq<Packet>, pos: nat, device: Device) {
    log.cut <= pos <= |WireAll(out)| && device == Feed(log.from, WireAll(out)[log.cut..pos])
  }

  ghost predicate InFlight(t: Tracked)
    requires Logged(t)
  {
    && Describes(t.log, t.s.out, t.s.dst2, t.s.dst1, t.s.forceFull, t.s.native)
    && Fed(t.log, t.s.out, t.s.pos, t.s.device)
  }

  /** The invariant of whole runs. */
  ghost predicate Safe(t: Tracked) {
    && Coherent(t.s) && t.log.cut <= t.s.pos
    && (if t.s.sending then InFlight(t) else t.log.held == t.s.device.display.flags)
  }

  // ---- Sends that break off ----

  /** The interpreter waits for a command after `n` bytes of the buffer. */
  ghost predicate Aligned(t: Tracked, n: nat)
    requires t.log.cut <= n <= |WireAll(t.s.out)|
  {
    if t.log.cut == 0 then CommandStart(t.s.out, n)
    else Interpret(t.log.from.fsm, WireAll(t.s.out)[t.log.cut..n]).0.op.CodeLow?
  }

  /**
   * What went out leaves the picture that the reference frame stands for. A flags-only send does if
   * the private frames agree, a difference if at most one BOS command is out, a full refresh right
   * after the clear packet, or before it if the display was blank.
   */
  ghost predicate Undrawn(t: Tracked, n: nat) {
    if !t.log.frame then t.s.dst1 == t.s.dst2
    else if !t.log.full then n <= BOS_SIZE
    else if n < CLEAR_SIZE then Shows(t.log.from, t.log.native, Zeros())
    else n <= CLEAR_SIZE + BOS_SIZE
  }

  /**
   * A send that stops after `n` bytes of the buffer does no harm: it stops at the start of a command,
   * and a full refresh is due, or the picture is still that of the reference frame and an update is
   * due or not needed.
   */
  ghost predicate HarmlessStop(t: Tracked, n: nat)
    requires t.log.cut <= n <= |WireAll(t.s.out)|
  {
    && Aligned(t, n)
    && (t.s.forceFull || (Undrawn(t, n) && (t.s.dirty || t.s.dst1 == t.s.dst2)))
  }

  lemma Resumed(d: Device, w: seq<u8>, cut: nat, pos: nat, got: nat)
    requires cut <= pos && pos + got <= |w|
    ensures Feed(Feed(d, w[cut..pos]), w[pos..][..got]) == Feed(d, w[cut..pos + got])
  {
    assert w[cut..pos] + w[pos..][..got] == w[cut..pos + got];
    FeedConcat(d, w[cut..pos], w[pos..][..got]);
  }

  lemma ResumedToEnd(d: Device, w: seq<u8>, cut: nat, pos: nat)
    requires cut <= pos <= |w|
    ensures Feed(Feed(d, w[cut..pos]), w[pos..]) == Feed(d, w[cut..|w|])
  {
    assert w[cut..pos] + w[pos..] == w[cut..|w|];
    FeedConcat(d, w[cut..pos], w[pos..]);
  }

  lemma RedrawIsDriver(full: bool, flags: u8, native: bool, reference: seq<u8>, frame: seq<u8>)
    requires |reference| == FB_SIZE && |frame| == FB_SIZE
    ensures AllDriver(Redraw(full, flags, native, reference, frame))
    ensures AllProper(Redraw(full, flags, native, reference, frame))
  {
    var c := Config(flags, native);
    var ps := DiffPackets(c, !full, reference, frame, 0, FB_SIZE);
    DiffRedraws(c, !full, reference, frame);
    DrawsCarry(c, !full, frame, 0, ps, FB_SIZE);
    InitDataFields(0, true, true, native, 0, FB_SIZE);
    assert DriverPacket(ClearPacket(native));
    DriverIsProper(Redraw(full, flags, native, reference, frame));
  }

  lemma ClearSize(native: bool)
    ensures DriverPacket(ClearPacket(native)) && ClearPacket(native).hdr.flags == 0
    ensures |Wire(ClearPacket(native))| == CLEAR_SIZE
  {
    InitDataFields(0, true, true, native, 0, FB_SIZE);
  }

  /** A difference that breaks off at a command start. */
  lemma PlainStop(d: Device, flags: u8, native: bool, reference: seq<u8>, frame: seq<u8>, ps: seq<Packet>, n: nat)
    requires |reference| == FB_SIZE && |frame| == FB_SIZE && |d.display.mem| >= FB_SIZE
    requires ps == Redraw(false, flags, native, reference, frame)
    requires d.fsm.op.CodeLow? && n <= |WireAll(ps)| && CommandStart(ps, n)
    ensures var d' := Feed(d, WireAll(ps)[..n]);
            && d'.display.flags == (if n == 0 then d.display.flags else flags)
            && (Shows(d, native, reference) ==> (Shows(d', native, reference) <==> n <= BOS_SIZE))
  {
    var c := Config(flags, native);
    var qs := DiffPackets(c, true, reference, frame, 0, FB_SIZE);
    assert ps == [] + qs == qs;
    DiffRedraws(c, true, reference, frame);
    DrawsCarry(c, true, frame, 0, ps, FB_SIZE);
    CutEffect(d, ps, n, flags);
    if Shows(d, native, reference) {
      CutShowsOldIff(d, c, true, reference, frame, ps, n);
    }
  }

  /** A full refresh that breaks off before its clear packet is whole. */
  lemma StopInClear(d: Device, flags: u8, native: bool, frame: seq<u8>, ps: seq<Packet>, n: nat)
    requires |frame| == FB_SIZE && |d.display.mem| >= FB_SIZE
    requires ps == Redraw(true, flags, native, Zeros(), frame)
    requires d.fsm.op.CodeLow? && n <= |WireAll(ps)| && CommandStart(ps, n) && n < CLEAR_SIZE
    ensures var d' := Feed(d, WireAll(ps)[..n]);
            && d'.display.flags == (if n == 0 then d.display.flags else 0)
            && (Shows(d', native, Zeros()) <==> Shows(d, native, Zeros()))
  {
    ClearSize(native);
    assert ps[0] == ClearPacket(native);
    CutsFirst(ps, n);
    if n > 0 {
      BosDone(d, ps[0]);
    }
  }

  /** A full refresh that breaks off at a command start. */
  lemma FullStop(d: Device, flags: u8, native: bool, frame: seq<u8>, ps: seq<Packet>, n: nat)
    requires |frame| == FB_SIZE && |d.display.mem| >= FB_SIZE
    requires ps == Redraw(true, flags, native, Zeros(), frame)
    requires d.fsm.op.CodeLow? && n <= |WireAll(ps)| && CommandStart(ps, n)
    ensures var d' := Feed(d, WireAll(ps)[..n]);
            && d'.display.flags == (if n == 0 then d.display.flags else if n <= CLEAR_SIZE then 0 else flags)
            && (Shows(d', native, Zeros()) <==>
                  if n < CLEAR_SIZE then Shows(d, native, Zeros()) else n <= CLEAR_SIZE + BOS_SIZE)
  {
    if n < CLEAR_SIZE {
      StopInClear(d, flags, native, frame, ps, n);
    } else {
      var clear, m := ClearPacket(native), n - CLEAR_SIZE;
      var qs := DiffPackets(Config(flags, native), false, Zeros(), frame, 0, FB_SIZE);
      ClearSize(native);
      assert ps[0] == clear && ps[1..] == qs;
      CutsFirst(ps, n);
      ClearShowsZeros(d, native);
      FeedConcat(d, Wire(clear), WireAll(qs)[..m]);
      CutShowsOldIff(Feed(d, Wire(clear)), Config(flags, native), false, Zeros(), frame, qs, m);
    }
  }

  /** A flags-only packet that breaks off at its start or its end. */
  lemma FlagsStop(d: Device, flags: u8, n: nat)
    requires d.fsm.op.CodeLow? && n <= |WireAll([InitFlagsOnly(flags)])|
    requires CommandStart([InitFlagsOnly(flags)], n)
    ensures var d' := Feed(d, WireAll([InitFlagsOnly(flags)])[..n]);
            d'.display.mem == d.display.mem && d'.display.flags == if n == 0 then d.display.flags else flags
  {
    var p := InitFlagsOnly(flags);
    OnlyOne(p);
    if n > 0 {
      assert WireAll([p])[..n] == Wire(p);
      FlagsPacket(d, flags);
    }
  }

  lemma OnlyOne(p: Packet)
    ensures WireAll([p]) == Wire(p)
  {
    assert [p][1..] == [];
    assert Wire(p) + [] == Wire(p);
  }

  /** Two frames a display can show at once are equal. */
  lemma ShowsOne(d: Device, native: bool, a: seq<u8>, b: seq<u8>)
    requires |a| == |b| && Shows(d, native, a) && Shows(d, native, b)
    ensures a == b
  {
    forall i | 0 <= i < |a|
      ensures a[i] == b[i]
    {
      FlipInjective(native, a[i], b[i]);
    }
  }

  /** The device when the send stops after `n` bytes of the buffer. */
  ghost function Stopped(t: Tracked, n: nat): Device
    requires t.log.cut <= n <= |WireAll(t.s.out)|
  {
    Feed(t.log.from, WireAll(t.s.out)[t.log.cut..n])
  }

  /** What the display holds after a send that nothing disturbed, if it stops at a command start. */
  lemma StopEffect(t: Tracked, n: nat)
    requires Safe(t) && t.s.sending && t.log.cut == 0 && n <= |WireAll(t.s.out)| && CommandStart(t.s.out, n)
    ensures Stopped(t, n).display.flags == HeldAfter(t, n)
    ensures !t.s.forceFull ==> (Shows(Stopped(t, n), t.s.native, t.s.dst2) <==> Undrawn(t, n))
  {
    var s, log := t.s, t.log;
    assert WireAll(s.out)[0..n] == WireAll(s.out)[..n];
    if !log.frame {
      FlagsStop(log.from, log.flags, n);
      if !s.forceFull {
        FlagsKeepPicture(t, n);
      }
    } else if log.full {
      FullStop(log.from, log.flags, log.native, s.dst1, s.out, n);
    } else {
      PlainStop(log.from, log.flags, log.native, s.dst2, s.dst1, s.out, n);
    }
  }

  lemma ArrivedIsStopped(t: Tracked)
    requires Safe(t) && t.s.sending
    ensures Arrived(t.s) == Stopped(t, |WireAll(t.s.out)|)
  {
    ResumedToEnd(t.log.from, WireAll(t.s.out), t.log.cut, t.s.pos);
  }

  lemma FlagsKeepPicture(t: Tracked, n: nat)
    requires Safe(t) && t.s.sending && t.log.cut == 0 && !t.log.frame && !t.s.forceFull
    requires n <= |WireAll(t.s.out)| && CommandStart(t.s.out, n)
    ensures Shows(Stopped(t, n), t.s.native, t.s.dst2) <==> t.s.dst1 == t.s.dst2
  {
    var s, log, w := t.s, t.log, WireAll(t.s.out);
    ArrivedIsStopped(t);
    OnlyOne(InitFlagsOnly(log.flags));
    assert w[0..n] == w[..n] && w[0..|w|] == w[..|w|];
    FlagsStop(log.from, log.flags, n);
    FlagsStop(log.from, log.flags, |w|);
    if Shows(Stopped(t, n), s.native, s.dst2) {
      ShowsOne(Stopped(t, n), s.native, s.dst1, s.dst2);
    }
  }

  /** What is sent are packets such as the driver makes. */
  lemma SendIsProper(t: Tracked)
    requires Safe(t) && t.s.sending
    ensures AllProper(t.s.out)
  {
    if t.log.frame {
      RedrawIsDriver(t.log.full, t.log.flags, t.log.native, t.s.dst2, t.s.dst1);
    }
  }

  lemma AlignedIff(t: Tracked, n: nat)
    requires Safe(t) && t.s.sending && t.log.cut <= n <= |WireAll(t.s.out)|
    ensures Stopped(t, n).fsm.op.CodeLow? <==> Aligned(t, n)
  {
    if t.log.cut == 0 {
      assert WireAll(t.s.out)[0..n] == WireAll(t.s.out)[..n];
      SendIsProper(t);
      WaitsIff(t.log.from.fsm, t.s.out, n);
    }
  }

  /** What a stop means for the interpreter and, if no full refresh is due, for the picture. */
  lemma StopMeans(t: Tracked, n: nat)
    requires Safe(t) && t.s.sending && t.log.cut <= n <= |WireAll(t.s.out)|
    ensures Stopped(t, n).fsm.op.CodeLow? <==> Aligned(t, n)
    ensures Aligned(t, n) && !t.s.forceFull ==> (Shows(Stopped(t, n), t.s.native, t.s.dst2) <==> Undrawn(t, n))
  {
    AlignedIff(t, n);
    if !t.s.forceFull && CommandStart(t.s.out, n) {
      StopEffect(t, n);
    }
  }

  lemma FailsAsStopped(t: Tracked, got: nat)
    requires Safe(t) && t.s.sending && t.s.pos + got <= |WireAll(t.s.out)|
    ensures SendFails(t.s, got).device == Stopped(t, t.s.pos + got)
  {
    Resumed(t.log.from, WireAll(t.s.out), t.log.cut, t.s.pos, got);
  }

  lemma CoherentAfterFail(s: State, got: nat, d: Device)
    requires Coherent(s) && s.sending && s.pos + got <= |WireAll(s.out)| && d == SendFails(s, got).device
    ensures Coherent(SendFails(s, got)) <==>
              && d.fsm.op.CodeLow?
              && (s.forceFull || (Shows(d, s.native, s.dst2) && (s.dirty || s.dst1 == s.dst2)))
  {
    assert Rest(SendFails(s, got)) == [];
    FeedNothing(d);
    FeedSize(s.device, Rest(s)[..got]);
  }

  /** A failing send keeps the invariant exactly when it stops where that does no harm. */
  lemma FailKeepsIff(t: Tracked, got: nat)
    requires Safe(t) && t.s.sending && t.s.pos + got <= |WireAll(t.s.out)|
    ensures Coherent(SendFails(t.s, got)) <==> HarmlessStop(t, t.s.pos + got)
  {
    var n := t.s.pos + got;
    StopMeans(t, n);
    FailsAsStopped(t, got);
    CoherentAfterFail(t.s, got, Stopped(t, n));
    if !t.s.forceFull && Aligned(t, n) {
      assert Shows(Stopped(t, n), t.s.native, t.s.dst2) <==> Undrawn(t, n);
    }
  }

  lemma WholeSendDraws(t: Tracked)
    requires Safe(t) && t.s.sending && t.log.cut == 0
    ensures Aligned(t, |WireAll(t.s.out)|)
    ensures !t.s.forceFull ==> (Undrawn(t, |WireAll(t.s.out)|) <==> t.s.dst1 == t.s.dst2)
  {
    var s, d := t.s, Stopped(t, |WireAll(t.s.out)|);
    ArrivedIsStopped(t);
    StopMeans(t, |WireAll(s.out)|);
    if !s.forceFull && Shows(d, s.native, s.dst2) {
      ShowsOne(d, s.native, s.dst1, s.dst2);
    }
  }

  /** With everything in the buffer out, a late error does no harm only if there was nothing to change. */
  lemma LateErrorKeepsIff(t: Tracked)
    requires Safe(t) && t.s.sending && t.log.cut == 0
    ensures Coherent(SendFails(t.s, |Rest(t.s)|)) <==> t.s.forceFull || t.s.dst1 == t.s.dst2
  {
    FailKeepsIff(t, |Rest(t.s)|);
    WholeSendDraws(t);
  }

  /** One byte into any packet, even a full refresh that is due does not help: the next packets are misread. */
  lemma FirstByteStrands(t: Tracked)
    requires Safe(t) && t.s.sending && t.log.cut == 0 && t.s.pos == 0
    ensures |Rest(t.s)| >= 1 && !Coherent(SendFails(t.s, 1))
  {
    var ps := t.s.out;
    SendIsProper(t);
    assert Proper(ps[0]) && |Wire(ps[0])| >= 2;
    FailKeepsIff(t, 1);
  }

  // ---- Steps ----

  /** The steps that do no harm: each condition can be read off before the step. */
  ghost predicate Allowed(t: Tracked, e: Action)
    requires Logged(t)
  {
    && Enabled(t.s, e)
    && match e
       case WakeUp(hw, ready) => Harmless(t.s, hw, ready)
       case Reset(_) => Interpret(INITIAL, Rest(t.s)).0.op.CodeLow?
       case Timeout => HarmlessStop(t, t.s.pos)
       case SpiError(got) => HarmlessStop(t, t.s.pos + got)
       case _ => true
  }

  /** A send begins. */
  lemma Begins(u: Tracked, full: bool)
    requires WellTyped(u.s) && u.s.sending && u.s.pos == 0
    requires u.s.out == Encoded(u.log, u.s.dst2, u.s.dst1) && u.s.out != []
    requires u.log == Log(u.s.device, 0, u.log.frame, full, u.log.flags, u.s.native, u.s.device.display.flags)
    requires u.s.device.fsm.op.CodeLow?
    requires u.log.frame && full ==> u.s.dst2 == Zeros()
    requires u.log.frame && !full ==> Shows(u.s.device, u.s.native, u.s.dst2)
    ensures InFlight(u)
  {
    assert WireAll(u.s.out)[0..0] == [];
    FeedNothing(u.s.device);
  }

  lemma WakeFrameBegins(t: Tracked, ready: bool)
    requires Safe(t) && !t.s.sending && EncodeFrame(t.s).out != [] && Wake(t.s, true, ready).sending
    ensures WellTyped(Wake(t.s, true, ready)) && InFlight(Track(t, WakeUp(true, ready)))
  {
    var s := t.s;
    EncodeFrameKeeps(s);
    assert Rest(s) == [];
    FeedNothing(s.device);
    Begins(Track(t, WakeUp(true, ready)), s.forceFull);
  }

  lemma WakeFlagsBegins(t: Tracked, hw: bool, ready: bool)
    requires Safe(t) && !t.s.sending && (hw ==> EncodeFrame(t.s).out == []) && Wake(t.s, hw, ready).sending
    ensures WellTyped(Wake(t.s, hw, ready)) && InFlight(Track(t, WakeUp(hw, ready)))
  {
    var s := t.s;
    assert Rest(s) == [];
    FeedNothing(s.device);
    Begins(Track(t, WakeUp(hw, ready)), s.forceFull);
  }

  lemma WakeBegins(t: Tracked, hw: bool, ready: bool)
    requires Safe(t) && !t.s.sending && Wake(t.s, hw, ready).sending
    ensures WellTyped(Wake(t.s, hw, ready)) && InFlight(Track(t, WakeUp(hw, ready)))
  {
    if hw && EncodeFrame(t.s).out != [] {
      WakeFrameBegins(t, ready);
    } else {
      WakeFlagsBegins(t, hw, ready);
    }
  }

  lemma WakeRests(t: Tracked, hw: bool, ready: bool)
    requires WellTyped(t.s) && !t.s.sending && !Wake(t.s, hw, ready).sending && Logged(t)
    ensures var u := Track(t, WakeUp(hw, ready));
            u.log.cut == 0 && u.log.held == t.log.held && u.s.device == t.s.device
  {}

  lemma WakeSafe(t: Tracked, hw: bool, ready: bool)
    requires Safe(t) && !t.s.sending && Coherent(Wake(t.s, hw, ready))
    ensures Safe(Track(t, WakeUp(hw, ready)))
  {
    if Wake(t.s, hw, ready).sending {
      WakeBegins(t, hw, ready);
    } else {
      WakeRests(t, hw, ready);
    }
  }

  lemma FedMore(log: Log, out: seq<Packet>, pos: nat, device: Device, n: nat)
    requires Fed(log, out, pos, device) && pos + n <= |WireAll(out)|
    ensures Fed(log, out, pos + n, Feed(device, WireAll(out)[pos..][..n]))
  {
    Resumed(log.from, WireAll(out), log.cut, pos, n);
  }

  lemma ChunkFlies(t: Tracked, s: State)
    requires Fed(t.log, t.s.out, t.s.pos, t.s.device) && s == SendChunk(t.s)
    ensures Fed(t.log, s.out, s.pos, s.device)
  {
    FedMore(t.log, t.s.out, t.s.pos, t.s.device, s.pos - t.s.pos);
  }

  lemma ChunkSafe(t: Tracked, u: Tracked)
    requires Safe(t) && t.s.sending && u.s == SendChunk(t.s) && u.log == t.log
    ensures Safe(u)
  {
    ChunkKeeps(t.s);
    ChunkFlies(t, u.s);
  }

  lemma HeldWhenStopped(t: Tracked, n: nat)
    requires Safe(t) && t.s.sending && t.log.cut <= n <= |WireAll(t.s.out)| && Aligned(t, n)
    ensures Stopped(t, n).display.flags == HeldAfter(t, n)
  {
    if t.log.cut == 0 {
      StopEffect(t, n);
    }
  }

  lemma FinishSafe(t: Tracked)
    requires Safe(t) && t.s.sending && Rest(t.s) == []
    ensures Safe(Track(t, Finished))
  {
    var s := t.s;
    assert Rest(Finish(s)) == [];
    FeedNothing(s.device);
    ArrivedIsStopped(t);
    AlignedIff(t, s.pos);
    HeldWhenStopped(t, s.pos);
  }

  lemma StopRests(t: Tracked, got: nat, u: Tracked)
    requires Safe(t) && t.s.sending && t.s.pos + got <= |WireAll(t.s.out)|
    requires Aligned(t, t.s.pos + got) && Coherent(u.s) && u.s == SendFails(t.s, got)
    requires u.log == t.log.(cut := 0, held := HeldAfter(t, t.s.pos + got))
    ensures Safe(u)
  {
    FailsAsStopped(t, got);
    HeldWhenStopped(t, t.s.pos + got);
  }

  lemma StopSafeIff(t: Tracked, got: nat, u: Tracked)
    requires Safe(t) && t.s.sending && t.s.pos + got <= |WireAll(t.s.out)|
    requires u.s == SendFails(t.s, got)
    requires u.log == t.log.(cut := 0, held := HeldAfter(t, t.s.pos + got))
    ensures Coherent(u.s) <==> HarmlessStop(t, t.s.pos + got)
    ensures HarmlessStop(t, t.s.pos + got) ==> Safe(u)
  {
    FailKeepsIff(t, got);
    if HarmlessStop(t, t.s.pos + got) {
      StopRests(t, got, u);
    }
  }

  lemma ResetSafe(t: Tracked, display: Display)
    requires Safe(t) && Enabled(t.s, Reset(display)) && Interpret(INITIAL, Rest(t.s)).0.op.CodeLow?
    ensures Safe(Track(t, Reset(display)))
  {
    ResetKeepsIff(t.s, display);
    assert WireAll(t.s.out)[t.s.pos..t.s.pos] == [];
    FeedNothing(Device(INITIAL, display));
  }

  /** What a step of another thread may change: it may announce a newer frame or a full refresh. */
  ghost predicate Announces(s: State, u: State) {
    && u.out == s.out && u.pos == s.pos && u.sending == s.sending && u.device == s.device
    && u.dst1 == s.dst1 && u.dst2 == s.dst2 && |u.dst0| == FB_SIZE
    && (s.forceFull ==> u.forceFull) && (u.online || u.forceFull)
    && (u.dirty || (u.dst0 == s.dst0 && !s.dirty))
    && (u.native == s.native || u.forceFull)
  }

  lemma AnnounceSafe(t: Tracked, u: State)
    requires Safe(t) && Announces(t.s, u)
    ensures Safe(Tracked(u, t.log))
  {
    assert Rest(u) == Rest(t.s) && Arrived(u) == Arrived(t.s);
  }

  /** The step belongs to the drainer, or resets the FPGA. */
  predicate Drains(e: Action) {
    e.WakeUp? || e.Chunk? || e.Finished? || e.Timeout? || e.SpiError? || e.Reset?
  }

  lemma OthersAnnounce(s: State, e: Action)
    requires Coherent(s) && Enabled(s, e) && !Drains(e)
    ensures Announces(s, Next(s, e))
  {}

  /** The step keeps the invariant exactly when it is one that does no harm. */
  ghost predicate KeepsIff(t: Tracked, e: Action)
    requires Logged(t) && Enabled(t.s, e)
  {
    && (Coherent(Next(t.s, e)) <==> Allowed(t, e))
    && (Allowed(t, e) ==> Safe(Track(t, e)))
  }

  lemma OtherKeepsIff(t: Tracked, e: Action)
    requires Safe(t) && Enabled(t.s, e) && !Drains(e)
    ensures KeepsIff(t, e)
  {
    OthersAnnounce(t.s, e);
    AnnounceSafe(t, Next(t.s, e));
  }

  lemma WakeUpKeepsIff(t: Tracked, e: Action)
    requires Safe(t) && Enabled(t.s, e) && e.WakeUp?
    ensures KeepsIff(t, e)
  {
    WakeKeepsIff(t.s, e.hw, e.ready);
    if Harmless(t.s, e.hw, e.ready) {
      WakeSafe(t, e.hw, e.ready);
    }
  }

  lemma ChunkKeepsIff(t: Tracked, e: Action)
    requires Safe(t) && Enabled(t.s, e) && e.Chunk?
    ensures KeepsIff(t, e)
  {
    ChunkSafe(t, Track(t, e));
  }

  lemma FinishKeepsIff(t: Tracked, e: Action)
    requires Safe(t) && Enabled(t.s, e) && e.Finished?
    ensures KeepsIff(t, e)
  {
    FinishSafe(t);
  }

  lemma TimeoutStops(t: Tracked)
    requires Logged(t) && Enabled(t.s, Timeout)
    ensures Allowed(t, Timeout) == HarmlessStop(t, t.s.pos)
    ensures Track(t, Timeout) == Tracked(SendFails(t.s, 0), t.log.(cut := 0, held := HeldAfter(t, t.s.pos)))
  {}

  lemma TimeoutKeepsIff(t: Tracked)
    requires Safe(t) && Enabled(t.s, Timeout)
    ensures KeepsIff(t, Timeout)
  {
    TimeoutStops(t);
    StopSafeIff(t, 0, Track(t, Timeout));
  }

  lemma SpiErrorStops(t: Tracked, got: nat)
    requires Logged(t) && Enabled(t.s, SpiError(got))
    ensures t.s.pos + got <= |WireAll(t.s.out)| && Allowed(t, SpiError(got)) == HarmlessStop(t, t.s.pos + got)
    ensures Track(t, SpiError(got))
         == Tracked(SendFails(t.s, got), t.log.(cut := 0, held := HeldAfter(t, t.s.pos + got)))
  {}

  lemma SpiErrorKeepsIff(t: Tracked, got: nat)
    requires Safe(t) && Enabled(t.s, SpiError(got))
    ensures KeepsIff(t, SpiError(got))
  {
    SpiErrorStops(t, got);
    StopSafeIff(t, got, Track(t, SpiError(got)));
  }

  lemma FailureKeepsIff(t: Tracked, e: Action)
    requires Safe(t) && Enabled(t.s, e) && (e.Timeout? || e.SpiError?)
    ensures KeepsIff(t, e)
  {
    if e.Timeout? {
      TimeoutKeepsIff(t);
    } else {
      SpiErrorKeepsIff(t, e.got);
    }
  }

  lemma ResetStepKeepsIff(t: Tracked, e: Action)
    requires Safe(t) && Enabled(t.s, e) && e.Reset?
    ensures KeepsIff(t, e)
  {
    ResetKeepsIff(t.s, e.display);
    if Interpret(INITIAL, Rest(t.s)).0.op.CodeLow? {
      ResetSafe(t, e.display);
    }
  }

  lemma DrainerKeepsIff(t: Tracked, e: Action)
    requires Safe(t) && Enabled(t.s, e) && (e.WakeUp? || e.Chunk? || e.Finished?)
    ensures KeepsIff(t, e)
  {
    if e.WakeUp? {
      WakeUpKeepsIff(t, e);
    } else if e.Chunk? {
      ChunkKeepsIff(t, e);
    } else {
      FinishKeepsIff(t, e);
    }
  }

  /** A step of any thread keeps the invariant exactly when it is one that does no harm. */
  lemma StepKeepsIff(t: Tracked, e: Action)
    requires Safe(t) && Enabled(t.s, e)
    ensures KeepsIff(t, e)
  {
    if e.Timeout? || e.SpiError? {
      FailureKeepsIff(t, e);
    } else if e.Reset? {
      ResetStepKeepsIff(t, e);
    } else if Drains(e) {
      DrainerKeepsIff(t, e);
    } else {
      OtherKeepsIff(t, e);
    }
  }

  // ---- Runs ----

  /** A run: each step happens in the state that the steps before it produced. */
  ghost predicate Runs(t: Tracked, es: seq<Action>, u: Tracked)
    requires Logged(t)
    decreases |es|
  {
    if es == [] then t == u
    else Allowed(t, es[0]) && Logged(Track(t, es[0])) && Runs(Track(t, es[0]), es[1..], u)
  }

  /** The drainer at rest, with an empty history. */
  function Idle(s: State): Tracked {
    Tracked(s, Log(s.device, 0, false, false, 0, s.native, s.device.display.flags))
  }

  lemma {:induction false} RunIsSafe(t: Tracked, es: seq<Action>, u: Tracked)
    requires Safe(t) && Runs(t, es, u)
    ensures Safe(u)
    decreases |es|
  {
    if es != [] {
      StepKeepsIff(t, es[0]);
      RunIsSafe(Track(t, es[0]), es[1..], u);
    }
  }

  /**
   * Over all interleavings of updates, flag changes, disconnections, resets, failing sends and drainer
   * steps of which none does harm: whenever the drainer is at rest with nothing pending, the device
   * shows the newest frame, and the reference frame is that frame.
   */
  lemma EveryRunIsCoherent(s: State, es: seq<Action>, u: Tracked)
    requires Coherent(s) && !s.sending && Runs(Idle(s), es, u)
    ensures Coherent(u.s)
    ensures !u.s.sending && !u.s.dirty && !u.s.forceFull ==>
              Shows(u.s.device, u.s.native, u.s.dst0) && u.s.dst2 == u.s.dst0
  {
    RunIsSafe(Idle(s), es, u);
    if !u.s.sending && !u.s.dirty && !u.s.forceFull {
      AtRest(u.s);
    }
  }

  // ---- Flags ----

  /**
   * When a send that no reset disturbed finishes, the driver's record of the flags agrees with the
   * device exactly if the flags are still those that went out: those of the encoding, or 0 if only
   * the clear packet went out.
   */
  lemma FinishedFlagsIff(t: Tracked)
    requires Safe(t) && t.s.sending && Rest(t.s) == [] && t.log.cut == 0
    ensures var u := Finish(t.s);
            u.device.display.flags == u.lastSent
            <==> t.s.flags == if t.log.frame && t.log.full && t.s.dst1 == Zeros() then 0 else t.log.flags
  {
    FinishSafe(t);
    if t.log.frame {
      WholeRedraw(t.log.full, t.log.flags, t.log.native, t.s.dst2, t.s.dst1, t.s.out);
    } else {
      OnlyOne(InitFlagsOnly(t.log.flags));
    }
  }

  lemma WholeRedraw(full: bool, flags: u8, native: bool, reference: seq<u8>, frame: seq<u8>, ps: seq<Packet>)
    requires |reference| == FB_SIZE && |frame| == FB_SIZE
    requires ps == Redraw(full, flags, native, reference, frame) && ps != []
    ensures WireAll(ps) != []
    ensures full ==> (|WireAll(ps)| <= CLEAR_SIZE <==> reference == frame)
  {
    var qs := DiffPackets(Config(flags, native), !full, reference, frame, 0, FB_SIZE);
    DiffConverts(Config(flags, native), !full, reference, frame, 0, FB_SIZE);
    if full {
      ClearSize(native);
      assert ps[0] == ClearPacket(native) && ps[1..] == qs;
      if qs == [] {
        assert forall i | 0 <= i < FB_SIZE :: reference[i] == frame[i];
      } else {
        assert Wire(qs[0]) != [];
      }
    } else {
      assert Wire(ps[0]) != [];
    }
  }

  /** The step ends a send, or resets the FPGA. */
  predicate Settles(e: Action) {
    e.Finished? || e.Timeout? || e.SpiError? || e.Reset?
  }

  lemma RecordStays(t: Tracked, e: Action)
    requires Logged(t) && Enabled(t.s, e) && !Settles(e)
    ensures Track(t, e).log.held == t.log.held && Track(t, e).s.lastSent == t.s.lastSent
  {}

  lemma {:induction false} RecordsStay(t: Tracked, es: seq<Action>, u: Tracked)
    requires Logged(t) && Runs(t, es, u) && forall e | e in es :: !Settles(e)
    ensures u.log.held == t.log.held && u.s.lastSent == t.s.lastSent
    decreases |es|
  {
    if es != [] {
      assert es[0] in es && forall e | e in es[1..] :: e in es;
      RecordStays(t, es[0]);
      RecordsStay(Track(t, es[0]), es[1..], u);
    }
  }

  /**
   * Over whole runs, at rest: the record agrees with the device exactly if the flags had not changed
   * between the encoding of the last send that ended and its end.
   */
  lemma FlagsAtRestIff(t: Tracked, es: seq<Action>, u: Tracked)
    requires Safe(t) && t.s.sending && Rest(t.s) == [] && t.log.cut == 0
    requires Logged(Track(t, Finished)) && Runs(Track(t, Finished), es, u) && forall e | e in es :: !Settles(e)
    requires !u.s.sending
    ensures u.s.device.display.flags == u.s.lastSent
            <==> t.s.flags == if t.log.frame && t.log.full && t.s.dst1 == Zeros() then 0 else t.log.flags
  {
    FinishedFlagsIff(t);
    FinishSafe(t);
    RunIsSafe(Track(t, Finished), es, u);
    RecordsStay(Track(t, Finished), es, u);
  }

  /** After failing sends and resets too, the log tells which flags the device holds at rest. */
  lemma HeldAtRest(s: State, es: seq<Action>, u: Tracked)
    requires Coherent(s) && !s.sending && Runs(Idle(s), es, u) && !u.s.sending
    ensures u.s.device.display.flags == u.log.held
  {
    RunIsSafe(Idle(s), es, u);
  }

  // ---- What goes over the link ----

  /** The bytes that a step puts on the link. */
  ghost function Sent(s: State, e: Action): seq<u8>
    requires WellTyped(s) && Enabled(s, e)
  {
    match e
    case Chunk => Rest(s)[..if |Rest(s)| < SPI_CHUNK_MAX then |Rest(s)| else SPI_CHUNK_MAX]
    case SpiError(got) => Rest(s)[..got]
    case _ => []
  }

  ghost function SentAll(t: Tracked, es: seq<Action>): seq<u8>
    requires Logged(t)
    decreases |es|
  {
    if es == [] || !Allowed(t, es[0]) || !Logged(Track(t, es[0])) then []
    else Sent(t.s, es[0]) + SentAll(Track(t, es[0]), es[1..])
  }

  /** Between resets, the device is what the bytes on the link made of it. */
  lemma {:induction false} RunFeeds(t: Tracked, es: seq<Action>, u: Tracked)
    requires Logged(t) && Runs(t, es, u) && forall e | e in es :: !e.Reset?
    ensures u.s.device == Feed(t.s.device, SentAll(t, es))
    decreases |es|
  {
    if es == [] {
      FeedNothing(t.s.device);
    } else {
      StepFeeds(t.s, es[0]);
      RunFeeds(Track(t, es[0]), es[1..], u);
      FeedConcat(t.s.device, Sent(t.s, es[0]), SentAll(Track(t, es[0]), es[1..]));
    }
  }

  lemma WakeKeepsDevice(s: State, hw: bool, ready: bool)
    requires WellTyped(s) && Enabled(s, WakeUp(hw, ready))
    ensures Next(s, WakeUp(hw, ready)).device == s.device && Sent(s, WakeUp(hw, ready)) == []
  {}

  lemma OthersKeepDevice(s: State, e: Action)
    requires WellTyped(s) && Enabled(s, e) && !Drains(e)
    ensures Next(s, e).device == s.device && Sent(s, e) == []
  {}

  lemma StepFeeds(s: State, e: Action)
    requires WellTyped(s) && Enabled(s, e) && !e.Reset?
    ensures Next(s, e).device == Feed(s.device, Sent(s, e))
  {
    FeedNothing(s.device);
    if e.WakeUp? {
      WakeKeepsDevice(s, e.hw, e.ready);
    } else if e.Timeout? {
      assert Rest(s)[..0] == [];
    } else if !Drains(e) {
      OthersKeepDevice(s, e);
    }
  }
}
