/**
 * The drainer of kmod/sender.c and the update path of kmod/drm_p4_main.c as a state machine: three
 * frames, two flags, a send buffer, and the device at the other end of the SPI link.
 */
module Drainer {
  import opened Bytes
  import opened Packets
  import opened Encoder
  import opened CommandFsm
  import opened EndToEnd
  import opened Cuts

  /**
   * The driver's state between two critical sections, and the device.
   * `dst0` collects updates, `dst1` is the frame being sent, `dst2` is what the driver takes the
   * device to show. `out` are the packets in the send buffer, of which `pos` bytes are sent.
   */
  datatype State = State(
    dst0: seq<u8>, dst1: seq<u8>, dst2: seq<u8>,
    dirty: bool, forceFull: bool,
    flags: u8, lastSent: u8, native: bool,
    enabled: bool, online: bool,
    out: seq<Packet>, pos: nat, sending: bool,
    device: Device)

  // ---- What the code does ----

  /** `p4_send_clear`: one repeated zero for the whole framebuffer, with flags 0. */
  function ClearPacket(native: bool): Packet {
    Packet(InitData(0, true, true, native, 0, FB_SIZE), [0])
  }

  /** The reference frame an encoding starts from. */
  function Reference(s: State): seq<u8> {
    if s.forceFull then Zeros() else s.dst2
  }

  /** The packets that lead from a reference frame to a new one, after a clear packet if `full`. */
  function Redraw(full: bool, flags: u8, native: bool, reference: seq<u8>, frame: seq<u8>): seq<Packet>
    requires |reference| == FB_SIZE && |frame| == FB_SIZE
  {
    (if full then [ClearPacket(native)] else [])
    + DiffPackets(Config(flags, native), !full, reference, frame, 0, FB_SIZE)
  }

  /** The packets `encode_frame` puts in the buffer if they fit. */
  function FramePackets(s: State): seq<Packet>
    requires |s.dst0| == FB_SIZE && |s.dst2| == FB_SIZE
  {
    Redraw(s.forceFull, s.flags, s.native, Reference(s), s.dst0)
  }

  predicate Fits(s: State, ps: seq<Packet>) {
    s.enabled && s.online && |WireAll(ps)| <= SPI_BUF_SIZE
  }

  /** `encode_frame` */
  function EncodeFrame(s: State): State
    requires |s.dst0| == FB_SIZE && |s.dst2| == FB_SIZE
  {
    if !s.online || !s.dirty then s
    else
      var ps := FramePackets(s);
      var t := s.(dst1 := s.dst0, dst2 := Reference(s), out := [], pos := 0);
      if ps == [] then t.(dirty := false)
      else if Fits(s, ps) then t.(dirty := false, forceFull := false, out := ps)
      else t
  }

  /** Changed flags are sent on their own when there is nothing else to send. */
  function EncodeFlags(s: State): State {
    if s.out == [] && s.flags != s.lastSent && s.enabled && s.online
    then s.(out := [InitFlagsOnly(s.flags)], pos := 0)
    else s
  }

  /** The drainer wakes up, encodes, and starts to send or gives up. */
  function Wake(s: State, hw: bool, ready: bool): State
    requires |s.dst0| == FB_SIZE && |s.dst2| == FB_SIZE
  {
    var t := EncodeFlags(if hw then EncodeFrame(s) else s);
    if t.out == [] || !t.online || !ready
    then t.(out := [], pos := 0, sending := false)
    else t.(pos := 0, sending := true)
  }

  /** The bytes still to be sent. */
  function Rest(s: State): seq<u8>
    requires s.pos <= |WireAll(s.out)|
  {
    WireAll(s.out)[s.pos..]
  }

  /** One chunk goes out and the device takes it. */
  function SendChunk(s: State): State
    requires s.pos <= |WireAll(s.out)|
  {
    var n := if |Rest(s)| < SPI_CHUNK_MAX then |Rest(s)| else SPI_CHUNK_MAX;
    s.(device := Feed(s.device, Rest(s)[..n]), pos := s.pos + n)
  }

  /**
   * READY never rises, or the transfer fails after the device took the first `got` bytes of a chunk:
   * what is left is dropped, and the private frames stay where they are.
   */
  function SendFails(s: State, got: nat): State
    requires s.pos <= |WireAll(s.out)| && got <= |Rest(s)|
  {
    s.(device := Feed(s.device, Rest(s)[..got]), out := [], pos := 0, sending := false)
  }

  /** Everything is sent: the frame sent and the reference frame change places. */
  function Finish(s: State): State {
    s.(dst1 := s.dst2, dst2 := s.dst1, lastSent := s.flags, out := [], pos := 0, sending := false)
  }

  /** `p4_update`: `image` is what `dst0` becomes, `refresh` a rotation change or new framebuffer. */
  function Update(s: State, image: seq<u8>, refresh: bool, native: bool): State {
    if !s.enabled then s
    else s.(dst0 := image, dirty := true, forceFull := s.forceFull || refresh || native != s.native, native := native)
  }

  /**
   * The steps of the driver's threads. Taking the device offline and resetting the FPGA are two steps
   * that follow one another; neither waits for the drainer to finish a send. A reset leaves any
   * picture on the display. `Timeout` and `SpiError` are the two ways a send fails.
   */
  datatype Action =
    | UpdateEvent(image: seq<u8>, refresh: bool, native: bool)
    | SetFlags(flags: u8)
    | Enable
    | Disable
    | PowerUp(cold: bool)
    | GoOffline
    | Disconnect
    | Reset(display: Display)
    | GoOnline
    | Reconnect
    | WakeUp(hw: bool, ready: bool)
    | Chunk
    | Timeout
    | SpiError(got: nat)
    | Finished

  /** The types and sizes the code relies on. */
  ghost predicate WellTyped(s: State) {
    && |s.dst0| == FB_SIZE && |s.dst1| == FB_SIZE && |s.dst2| == FB_SIZE
    && |s.device.display.mem| >= FB_SIZE
    && s.pos <= |WireAll(s.out)| && (!s.sending ==> s.out == [])
  }

  /** Can the event happen in this state? */
  ghost predicate Enabled(s: State, e: Action)
    requires WellTyped(s)
  {
    match e
    case UpdateEvent(image, _, _) => |image| == FB_SIZE
    case Reset(display) => !s.online && |display.mem| >= FB_SIZE
    case WakeUp(_, _) => !s.sending
    case Chunk => s.sending && Rest(s) != []
    case Timeout => s.sending && Rest(s) != []
    case SpiError(got) => s.sending && got <= |Rest(s)| && got <= SPI_CHUNK_MAX && Rest(s) != []
    case Finished => s.sending && Rest(s) == []
    case _ => true
  }

  ghost function Next(s: State, e: Action): State
    requires WellTyped(s) && Enabled(s, e)
  {
    match e
    case UpdateEvent(image, refresh, native) => Update(s, image, refresh, native)
    case SetFlags(flags) => s.(flags := flags)
    case Enable => s.(enabled := true, forceFull := true)
    case Disable => s.(enabled := false)
    case PowerUp(cold) => s.(enabled := true, dirty := s.dirty || cold, forceFull := s.forceFull || cold)
    case GoOffline => s.(online := false, forceFull := true)
    case Disconnect => s.(online := false, dirty := true, forceFull := true)
    case Reset(display) => s.(device := Device(INITIAL, display))
    case GoOnline => s.(online := true)
    case Reconnect => if s.online then s else s.(online := true, dirty := true, forceFull := true)
    case WakeUp(hw, ready) => Wake(s, hw, ready)
    case Chunk => SendChunk(s)
    case Timeout => SendFails(s, 0)
    case SpiError(got) => SendFails(s, got)
    case Finished => Finish(s)
  }

  // ---- The cache invariant ----

  /** The device once the bytes in flight have arrived, and the frame it should then show. */
  function Arrived(s: State): Device
    requires s.pos <= |WireAll(s.out)|
  {
    Feed(s.device, Rest(s))
  }

  function Believed(s: State): seq<u8> {
    if s.sending then s.dst1 else s.dst2
  }

  /**
   * Once what is in flight has arrived, the device waits for a command and shows the frame the
   * driver believes it shows, unless a full refresh is due; and that frame is the newest one,
   * unless an update or a full refresh is due. While the device is offline, a full refresh is due.
   */
  ghost predicate Coherent(s: State) {
    && WellTyped(s) && (s.online || s.forceFull)
    && Arrived(s).fsm.op.CodeLow?
    && (s.forceFull || Shows(Arrived(s), s.native, Believed(s)))
    && (s.dirty || s.forceFull || s.dst0 == Believed(s))
  }

  /** What the invariant is for: at rest, with nothing pending, the device shows the newest frame. */
  lemma AtRest(s: State)
    requires Coherent(s) && !s.sending && !s.dirty && !s.forceFull
    ensures Shows(s.device, s.native, s.dst0) && s.dst2 == s.dst0 && s.device.fsm.op.CodeLow?
  {
    assert Rest(s) == [];
    FeedNothing(s.device);
  }

  lemma FeedNothing(d: Device)
    ensures Feed(d, []) == d
  {}

  /**
   * The wake-ups that keep the invariant. If the frame encoder produced packets, the device must be
   * ready to take them, unless a blank frame was to replace a blank display. If a flags-only packet
   * goes out instead, the two private frames must agree, unless a full refresh is due: they change
   * places after the send all the same.
   */
  ghost predicate Harmless(s: State, hw: bool, ready: bool)
    requires WellTyped(s)
  {
    var t := if hw then EncodeFrame(s) else s;
    if t.out != [] then
      ready || (s.forceFull && s.dst0 == Zeros() && Shows(s.device, s.native, Zeros()))
    else
      !ready || EncodeFlags(t).out == [] || t.forceFull || t.dst1 == t.dst2
  }

  // ---- Sending a frame ----

  lemma ClearShowsZeros(d: Device, native: bool)
    requires d.fsm.op.CodeLow? && |d.display.mem| >= FB_SIZE
    ensures var d' := Feed(d, Wire(ClearPacket(native)));
            && d'.fsm.op.CodeLow? && Shows(d', native, Zeros()) && |d'.display.mem| == |d.display.mem|
            && d'.display.flags == 0
  {
    var p := ClearPacket(native);
    InitDataFields(0, true, true, native, 0, FB_SIZE);
    assert WellFormed(p);
    assert p.hdr.cmd % 2 == 1;
    DataPacket(d, p);
    Rev8Zero();
    assert forall i | 0 <= i < FB_SIZE :: Expand(p)[i] == 0;
  }

  /** No packets means that the reference frame is already the newest one. */
  lemma NoPackets(s: State)
    requires WellTyped(s)
    ensures FramePackets(s) == [] <==> !s.forceFull && s.dst0 == s.dst2
  {
    var ps := DiffPackets(Config(s.flags, s.native), !s.forceFull, Reference(s), s.dst0, 0, FB_SIZE);
    DiffConverts(Config(s.flags, s.native), !s.forceFull, Reference(s), s.dst0, 0, FB_SIZE);
    if s.forceFull {
      assert FramePackets(s)[0] == ClearPacket(s.native);
    } else {
      assert FramePackets(s) == ps;
      if ps == [] {
        assert forall i | 0 <= i < FB_SIZE :: s.dst2[i] == s.dst0[i];
      }
    }
  }

  /** From any picture after a clear packet, or from the reference frame, the packets lead to the new frame. */
  lemma RedrawArrives(d: Device, full: bool, flags: u8, native: bool, reference: seq<u8>, frame: seq<u8>)
    requires |reference| == FB_SIZE && |frame| == FB_SIZE
    requires d.fsm.op.CodeLow? && |d.display.mem| >= FB_SIZE
    requires if full then reference == Zeros() else Shows(d, native, reference)
    ensures var d' := Feed(d, WireAll(Redraw(full, flags, native, reference, frame)));
            && d'.fsm.op.CodeLow? && Shows(d', native, frame) && |d'.display.mem| == |d.display.mem|
            && d'.display.flags == if reference != frame then flags else if full then 0 else d.display.flags
  {
    var ps := DiffPackets(Config(flags, native), !full, reference, frame, 0, FB_SIZE);
    var d0 := d;
    if full {
      var p := ClearPacket(native);
      ClearShowsZeros(d0, native);
      WireAllConcat([p], ps);
      WireAllSnoc([], p);
      assert [] + [p] == [p] && [] + Wire(p) == Wire(p);
      FeedConcat(d0, Wire(p), WireAll(ps));
      d0 := Feed(d0, Wire(p));
    } else {
      assert [] + ps == ps;
    }
    EncodeDiffDrivesDevice(d0, Config(flags, native), !full, reference, frame);
  }

  /** Wherever the device starts, as far as the driver knows, a frame's packets lead to that frame. */
  lemma FrameArrives(s: State)
    requires WellTyped(s) && s.device.fsm.op.CodeLow?
    requires s.forceFull || Shows(s.device, s.native, s.dst2)
    ensures var d := Feed(s.device, WireAll(FramePackets(s)));
            && d.fsm.op.CodeLow? && Shows(d, s.native, s.dst0) && |d.display.mem| == |s.device.display.mem|
            && (FramePackets(s) != [] ==>
                  d.display.flags == if s.forceFull && s.dst0 == Zeros() then 0 else s.flags)
  {
    NoPackets(s);
    RedrawArrives(s.device, s.forceFull, s.flags, s.native, Reference(s), s.dst0);
  }

  // ---- Every step keeps the invariant ----

  /**
   * `encode_frame` by itself: what it leaves in the buffer leads from what the device shows to the
   * newest frame; if it fails or finds nothing to send, the driver's belief is as good as before.
   */
  lemma EncodeFrameKeeps(s: State)
    requires Coherent(s) && !s.sending
    ensures var t := EncodeFrame(s);
            && t.device == s.device && t.dst0 == s.dst0 && t.native == s.native && t.pos == 0
            && (t.out == [] ==> Coherent(t))
            && (t.out != [] ==>
                  var d := Feed(s.device, WireAll(t.out));
                  d.fsm.op.CodeLow? && Shows(d, s.native, t.dst1) && |d.display.mem| == |s.device.display.mem|
                  && t.dst1 == s.dst0 && !t.dirty && !t.forceFull && t.dst2 == Reference(s))
  {
    assert Rest(s) == [];
    FeedNothing(s.device);
    if s.online && s.dirty {
      NoPackets(s);
      FrameArrives(s);
      var t := EncodeFrame(s);
      if t.out == [] {
        assert Rest(t) == [];
      }
    }
  }

  /** A wake-up keeps the invariant exactly when it is harmless. */
  lemma WakeKeepsIff(s: State, hw: bool, ready: bool)
    requires Coherent(s) && !s.sending
    ensures WellTyped(Wake(s, hw, ready))
    ensures Coherent(Wake(s, hw, ready)) <==> Harmless(s, hw, ready)
  {
    if hw {
      EncodeFrameKeeps(s);
    }
    var t := if hw then EncodeFrame(s) else s;
    if t.out != [] {
      WakeWithFrame(s, t, ready);
    } else if EncodeFlags(t).out == [] || !ready {
      WakeWithNothing(t);
    } else {
      WakeWithFlags(t);
    }
  }

  lemma WakeWithNothing(t: State)
    requires Coherent(t) && !t.sending && t.out == []
    ensures Coherent(t.(out := [], pos := 0, sending := false))
  {
    assert Rest(t.(out := [], pos := 0, sending := false)) == Rest(t);
  }

  lemma WakeWithFrame(s: State, t: State, ready: bool)
    requires Coherent(s) && !s.sending && t == EncodeFrame(s) && t.out != [] && t.online && t.pos == 0
    requires var d := Feed(s.device, WireAll(t.out));
             d.fsm.op.CodeLow? && Shows(d, s.native, t.dst1) && |d.display.mem| == |s.device.display.mem|
             && t.dst1 == s.dst0 && !t.dirty && !t.forceFull && t.dst2 == Reference(s)
             && t.device == s.device && t.dst0 == s.dst0 && t.native == s.native
    ensures var w := Wake(s, true, ready);
            && WellTyped(w)
            && (Coherent(w) <==> ready || (s.forceFull && s.dst0 == Zeros() && Shows(s.device, s.native, Zeros())))
  {
    var w := Wake(s, true, ready);
    if ready {
      assert w == t.(sending := true);
      assert Rest(w) == WireAll(t.out);
    } else {
      assert w == t.(out := [], sending := false);
      assert Rest(w) == [] && Rest(s) == [];
      FeedNothing(s.device);
      NoPackets(s);
    }
  }

  /** A flags-only send: the device keeps its picture, and the private frames change places. */
  lemma WakeWithFlags(t: State)
    requires Coherent(t) && !t.sending && t.flags != t.lastSent && t.enabled && t.online
    ensures var w := t.(out := [InitFlagsOnly(t.flags)], pos := 0, sending := true);
            && WellTyped(w)
            && (Coherent(w) <==> t.forceFull || t.dst1 == t.dst2)
  {
    var p := InitFlagsOnly(t.flags);
    var w := t.(out := [p], pos := 0, sending := true);
    WireAllSnoc([], p);
    assert [] + [p] == [p] && [] + Wire(p) == Wire(p);
    assert Rest(w) == Wire(p) && Rest(t) == [];
    FeedNothing(t.device);
    FlagsPacket(t.device, t.flags);
    if Coherent(w) && !t.forceFull {
      forall i | 0 <= i < FB_SIZE
        ensures t.dst1[i] == t.dst2[i]
      {
        FlipInjective(t.native, t.dst1[i], t.dst2[i]);
      }
    }
  }

  lemma ChunkArrives(s: State)
    requires WellTyped(s) && s.sending
    ensures WellTyped(SendChunk(s)) && Arrived(SendChunk(s)) == Arrived(s)
  {
    var n := if |Rest(s)| < SPI_CHUNK_MAX then |Rest(s)| else SPI_CHUNK_MAX;
    assert Rest(SendChunk(s)) == Rest(s)[n..];
    assert Rest(s)[..n] + Rest(s)[n..] == Rest(s);
    FeedConcat(s.device, Rest(s)[..n], Rest(s)[n..]);
    FeedSize(s.device, Rest(s)[..n]);
  }

  lemma ChunkKeeps(s: State)
    requires Coherent(s) && s.sending
    ensures Coherent(SendChunk(s)) && Arrived(SendChunk(s)) == Arrived(s)
  {
    ChunkArrives(s);
  }

  lemma {:induction false} ShowSize(d: Display, es: seq<CommandFsm.Event>)
    ensures |ShowAll(d, es).mem| == |d.mem|
    decreases |es|
  {
    if es != [] {
      ShowSize(Show(d, es[0]), es[1..]);
    }
  }

  /** No bytes change the size of the display memory. */
  lemma FeedSize(d: Device, s: seq<u8>)
    ensures |Feed(d, s).display.mem| == |d.display.mem|
  {
    ShowSize(d.display, Interpret(d.fsm, s).1);
  }

  // ---- Resets ----

  /**
   * A reset of the FPGA keeps the invariant exactly if what is left of the buffer happens to end at a
   * command start for an interpreter that begins there; if nothing is being sent, it always does.
   */
  lemma ResetKeepsIff(s: State, display: Display)
    requires Coherent(s) && Enabled(s, Reset(display))
    ensures Coherent(Next(s, Reset(display))) <==> Interpret(INITIAL, Rest(s)).0.op.CodeLow?
    ensures !s.sending ==> Interpret(INITIAL, Rest(s)).0.op.CodeLow?
  {
    FeedSize(Device(INITIAL, display), Rest(s));
  }

  /** So a reset between two packets of a send does no harm. */
  lemma ResetBetweenPackets(s: State, display: Display, k: nat)
    requires Coherent(s) && Enabled(s, Reset(display)) && AllProper(s.out)
    requires k <= |s.out| && s.pos == |WireAll(s.out[..k])|
    ensures Coherent(Next(s, Reset(display)))
  {
    ResetKeepsIff(s, display);
    assert s.out == s.out[..k] + s.out[k..];
    WireAllConcat(s.out[..k], s.out[k..]);
    assert Rest(s) == WireAll(s.out[k..]);
    AllWaits(INITIAL, s.out[k..]);
  }

  /**
   * A reset in the middle of a packet can: with one even byte left, the interpreter takes it for
   * the start of an image command, and the clear packet of the next full refresh for its payload.
   */
  lemma ResetInsidePacket(s: State, display: Display, b: u8)
    requires Coherent(s) && Enabled(s, Reset(display)) && Rest(s) == [b] && b % 2 == 0
    ensures var t := Next(s, Reset(display));
            && !Coherent(t) && t.forceFull
            && Feed(Arrived(t), Wire(ClearPacket(t.native))).fsm.op.ImagePayload?
  {
    ResetKeepsIff(s, display);
    var t := Next(s, Reset(display));
    var d, w := Arrived(t), Wire(ClearPacket(t.native));
    InterpretCons(INITIAL, b, []);
    assert [b] + [] == [b];
    assert d.fsm == INITIAL.(op := CodeHigh(b / 2));
    assert w == [w[0]] + w[1..];
    InterpretCons(d.fsm, w[0], w[1..]);
    ImagePartial(Step(d.fsm, w[0]).0, w[1..]);
  }

  // ---- One undisturbed cycle ----

  /** The send loop of the drainer, undisturbed. */
  function SendAll(s: State): (t: State)
    requires s.pos <= |WireAll(s.out)|
    decreases |WireAll(s.out)| - s.pos
  {
    if Rest(s) == [] then Finish(s) else SendAll(SendChunk(s))
  }

  lemma {:induction false} SendAllArrives(s: State)
    requires WellTyped(s) && s.sending
    ensures SendAll(s) == Finish(s.(device := Arrived(s)))
    decreases |WireAll(s.out)| - s.pos
  {
    if Rest(s) == [] {
      FeedNothing(s.device);
    } else {
      ChunkArrives(s);
      SendAllArrives(SendChunk(s));
    }
  }

  /** One vertical blank, undisturbed. */
  function Cycle(s: State): State
    requires |s.dst0| == FB_SIZE && |s.dst2| == FB_SIZE
  {
    var t := Wake(s, true, true);
    if t.sending then SendAll(t) else t
  }

  /**
   * From any state in which the invariant holds, one undisturbed cycle brings the newest frame to
   * the display, provided its encoding fits the buffer.
   */
  lemma CycleDelivers(s: State)
    requires Coherent(s) && !s.sending && s.dirty && Fits(s, FramePackets(s))
    ensures var u := Cycle(s);
            && Coherent(u) && !u.sending && !u.dirty && !u.forceFull
            && Shows(u.device, s.native, s.dst0)
  {
    NoPackets(s);
    EncodeFrameKeeps(s);
    WakeKeepsIff(s, true, true);
    var t := Wake(s, true, true);
    if t.sending {
      SendAllArrives(t);
      var u := SendAll(t);
      assert Rest(u) == [];
      FeedNothing(u.device);
      FeedSize(t.device, Rest(t));
      AtRest(u);
    } else {
      AtRest(t);
    }
  }

  // ---- What can go wrong ----

  /** If READY does not rise before the first chunk, the frame is lost just as if it was skipped. */
  lemma TimeoutIsSkip(s: State, hw: bool)
    requires WellTyped(s) && !s.sending && Wake(s, hw, true).sending
    ensures SendFails(Wake(s, hw, true), 0) == Wake(s, hw, false)
  {
    var w := Wake(s, hw, true);
    assert Rest(w)[..0] == [];
    FeedNothing(w.device);
  }

  /** A frame that was encoded but not sent is not retried: nothing is left pending. */
  lemma SkippedFrameIsLost(s: State)
    requires Coherent(s) && !s.sending && s.dirty && !s.forceFull && s.dst0 != s.dst2
    requires Fits(s, FramePackets(s))
    ensures var t := Wake(s, true, false);
            && !t.dirty && !t.forceFull && t.out == [] && !Shows(t.device, t.native, t.dst0)
            && EncodeFrame(t) == t
  {
    NoPackets(s);
    assert Rest(s) == [];
    FeedNothing(s.device);
    if Shows(s.device, s.native, s.dst0) {
      forall i | 0 <= i < FB_SIZE
        ensures s.dst0[i] == s.dst2[i]
      {
        FlipInjective(s.native, s.dst0[i], s.dst2[i]);
      }
    }
  }

  /**
   * A skipped full refresh is worse: the reference frame has become blank, the device keeps its
   * picture, and the request is gone. A blank update then sends nothing at all and leaves nothing
   * pending, whatever the device shows.
   */
  lemma SkippedRefreshIsLost(s: State)
    requires Coherent(s) && !s.sending && s.dirty && s.forceFull && Fits(s, FramePackets(s))
    ensures var t := Wake(s, true, false);
            var u := EncodeFrame(Update(t, Zeros(), false, t.native));
            && !t.dirty && !t.forceFull && t.out == [] && t.device == s.device && t.dst2 == Zeros()
            && !u.dirty && !u.forceFull && u.out == [] && u.device == s.device && u.dst0 == Zeros()
  {
    NoPackets(s);
    NoPackets(Update(Wake(s, true, false), Zeros(), false, s.native));
  }

  /**
   * The driver's record of the flags it sent, after a cycle in which a frame went out and during
   * which the flags became `flags`: it agrees with the device exactly if those are the flags the
   * frame was encoded with, or 0 for a full refresh with a blank frame, since the clear packet
   * carries flags 0 and nothing follows it. Otherwise no flags-only packet sets it right.
   */
  lemma FlagsAfterCycle(s: State, flags: u8)
    requires Coherent(s) && !s.sending && s.dirty && Fits(s, FramePackets(s)) && FramePackets(s) != []
    ensures var t := Wake(s, true, true);
            t.sending && t.pos <= |WireAll(t.out)|
    ensures var u := SendAll(Wake(s, true, true).(flags := flags));
            && (u.device.display.flags == u.lastSent <==>
                  flags == if s.forceFull && s.dst0 == Zeros() then 0 else s.flags)
            && EncodeFlags(u).out == []
  {
    NoPackets(s);
    assert Rest(s) == [];
    FeedNothing(s.device);
    FrameArrives(s);
    WakeKeepsIff(s, true, true);
    var t := Wake(s, true, true);
    assert Rest(t) == WireAll(FramePackets(s));
    var t' := t.(flags := flags);
    assert Coherent(t');
    SendAllArrives(t');
  }
}
