/** The drainer's own code, updating the device structures in place. */
module Driver {
  import opened Bytes
  import opened Packets
  import opened SendBuffer
  import opened Encoder
  import opened CommandFsm
  import D = Drainer
  import M = Damage

  /** The picture in rotated mode. */
  const SCREEN := M.Screen(HW_HEIGHT, HW_WIDTH)

  /**
   * In the hardware's own numbers: pixel (x, y) of a 720 by 280 picture is a bit of byte y / 8 in
   * row 719 - x of 35 bytes, the leftmost pixel of a byte in its most significant bit.
   */
  ghost predicate PictureAt(frame: seq<u8>, img: M.Picture) {
    && |frame| == 720 * 35
    && forall x: nat, y: nat | x < 720 && y < 280 ::
         Digit(frame[(719 - x) * 35 + y / 8], 7 - y % 8) == img(x, y)
  }

  lemma RotationIsPictureAt(frame: seq<u8>, img: M.Picture)
    requires |frame| == FB_SIZE && M.IsRotationOf(SCREEN, frame, img)
    ensures PictureAt(frame, img)
  {
    forall x: nat, y: nat | x < 720 && y < 280
      ensures 0 <= (719 - x) * 35 + y / 8 < |frame|
      ensures Digit(frame[(719 - x) * 35 + y / 8], 7 - y % 8) == img(x, y)
    {
      assert M.PixelIdx(SCREEN, x, y) == (719 - x) * 35 + y / 8;
      M.PixelInside(SCREEN, x, y);
      assert M.Shows(SCREEN, frame, x, y) == img(x, y);
      BitIsDigit(frame[(719 - x) * 35 + y / 8], 7 - y % 8);
    }
  }

  /** How the environment answers the attempt to send a chunk. */
  datatype Transfer = Sent | NotReady | Failed(got: nat)

  /** The send loop: chunks go out until all is sent or one fails. `env(k)` answers the `k`-th attempt. */
  function SendLoop(s: D.State, env: nat -> Transfer, k: nat): D.State
    requires s.pos <= |WireAll(s.out)|
    decreases |WireAll(s.out)| - s.pos
  {
    if D.Rest(s) == [] then D.Finish(s)
    else
      match env(k)
      case Sent => SendLoop(D.SendChunk(s), env, k + 1)
      case NotReady => D.SendFails(s, 0)
      case Failed(got) => D.SendFails(s, Min(got, Min(SPI_CHUNK_MAX, |D.Rest(s)|)))
  }

  /** One turn of the drainer loop. */
  function Turn(s: D.State, hw: bool, ready: bool, env: nat -> Transfer): D.State
    requires |s.dst0| == FB_SIZE && |s.dst2| == FB_SIZE
  {
    var w := D.Wake(s, hw, ready);
    if w.sending then SendLoop(w, env, 0) else w
  }

  // ---- The loop as steps of the state machine ----

  /** The steps of the send loop: a chunk for each one sent, and then how it ends. */
  function LoopSteps(s: D.State, env: nat -> Transfer, k: nat): seq<D.Action>
    requires s.pos <= |WireAll(s.out)|
    decreases |WireAll(s.out)| - s.pos
  {
    if D.Rest(s) == [] then [D.Finished]
    else
      match env(k)
      case Sent => [D.Chunk] + LoopSteps(D.SendChunk(s), env, k + 1)
      case NotReady => [D.Timeout]
      case Failed(got) => [D.SpiError(Min(got, Min(SPI_CHUNK_MAX, |D.Rest(s)|)))]
  }

  /** A wake-up and, if it starts a send, the steps of the loop. */
  function TurnSteps(s: D.State, hw: bool, ready: bool, env: nat -> Transfer): seq<D.Action>
    requires D.WellTyped(s)
  {
    var w := D.Wake(s, hw, ready);
    [D.WakeUp(hw, ready)] + if w.sending then LoopSteps(w, env, 0) else []
  }

  /** The steps can happen one after the other, and lead from one state to the other. */
  ghost predicate Plays(s: D.State, es: seq<D.Action>, t: D.State)
    decreases |es|
  {
    if es == [] then s == t
    else D.WellTyped(s) && D.Enabled(s, es[0]) && Plays(D.Next(s, es[0]), es[1..], t)
  }

  lemma PlaysOne(s: D.State, e: D.Action)
    requires D.WellTyped(s) && D.Enabled(s, e)
    ensures Plays(s, [e], D.Next(s, e))
  {
    assert [e][1..] == [];
  }

  lemma PlaysCons(s: D.State, e: D.Action, es: seq<D.Action>, t: D.State)
    requires D.WellTyped(s) && D.Enabled(s, e) && Plays(D.Next(s, e), es, t)
    ensures Plays(s, [e] + es, t)
  {
    assert ([e] + es)[1..] == es;
  }

  lemma {:induction false} LoopIsRun(s: D.State, env: nat -> Transfer, k: nat)
    requires D.WellTyped(s) && s.sending
    ensures Plays(s, LoopSteps(s, env, k), SendLoop(s, env, k))
    decreases |WireAll(s.out)| - s.pos
  {
    if D.Rest(s) == [] {
      PlaysOne(s, D.Finished);
    } else {
      match env(k)
      case Sent =>
        D.ChunkArrives(s);
        LoopIsRun(D.SendChunk(s), env, k + 1);
        PlaysCons(s, D.Chunk, LoopSteps(D.SendChunk(s), env, k + 1), SendLoop(s, env, k));
      case NotReady =>
        PlaysOne(s, D.Timeout);
      case Failed(got) =>
        PlaysOne(s, D.SpiError(Min(got, Min(SPI_CHUNK_MAX, |D.Rest(s)|))));
    }
  }

  /** A turn of the drainer loop is a run of the state machine, however the environment answers. */
  lemma TurnIsRun(s: D.State, hw: bool, ready: bool, env: nat -> Transfer)
    requires D.WellTyped(s) && !s.sending
    ensures Plays(s, TurnSteps(s, hw, ready, env), Turn(s, hw, ready, env))
  {
    var w := D.Wake(s, hw, ready);
    if w.sending {
      WakeIsTyped(s, hw, ready);
      LoopIsRun(w, env, 0);
      PlaysCons(s, D.WakeUp(hw, ready), LoopSteps(w, env, 0), SendLoop(w, env, 0));
    } else {
      PlaysOne(s, D.WakeUp(hw, ready));
      assert [D.WakeUp(hw, ready)] + [] == [D.WakeUp(hw, ready)];
    }
  }

  /** A send of `n` bytes takes one chunk, and so one look at READY, for each 4096 bytes begun. */
  lemma {:induction false} ChunkCount(s: D.State, env: nat -> Transfer, k: nat)
    requires D.WellTyped(s) && s.sending && forall i | i >= k :: env(i) == Sent
    ensures |LoopSteps(s, env, k)| == (|D.Rest(s)| + 4095) / 4096 + 1
    decreases |WireAll(s.out)| - s.pos
  {
    if D.Rest(s) != [] {
      D.ChunkArrives(s);
      ChunkCount(D.SendChunk(s), env, k + 1);
      assert |D.Rest(D.SendChunk(s))| == |D.Rest(s)| - Min(|D.Rest(s)|, 4096);
    }
  }

  lemma WakeIsTyped(s: D.State, hw: bool, ready: bool)
    requires D.WellTyped(s) && !s.sending
    ensures D.WellTyped(D.Wake(s, hw, ready))
  {}

  /** A loop in which every chunk is sent is the undisturbed loop of the state machine. */
  lemma {:induction false} SendLoopUndisturbed(s: D.State, env: nat -> Transfer, k: nat)
    requires s.pos <= |WireAll(s.out)| && forall i | i >= k :: env(i) == Sent
    ensures SendLoop(s, env, k) == D.SendAll(s)
    decreases |WireAll(s.out)| - s.pos
  {
    if D.Rest(s) != [] {
      SendLoopUndisturbed(D.SendChunk(s), env, k + 1);
    }
  }

  /** The three ways in which encoding a dirty frame can end. */
  lemma FrameOutcomes(s: D.State, ps: seq<Packet>)
    requires |s.dst0| == FB_SIZE && |s.dst2| == FB_SIZE && s.online && s.dirty && ps == D.FramePackets(s)
    ensures var t := s.(dst1 := s.dst0, dst2 := D.Reference(s), out := [], pos := 0);
            D.EncodeFrame(s) == if ps == [] then t.(dirty := false)
                                else if D.Fits(s, ps) then t.(dirty := false, forceFull := false, out := ps)
                                else t
  {}

  class P4 {
    const sender: Sender
    var dst0: seq<u8>
    var dst1: seq<u8>
    var dst2: seq<u8>
    var dirty: bool
    var forceFull: bool
    var flags: u8
    var native: bool

    /** The device at the other end of the link, and whether the drainer is inside its send loop. */
    ghost var device: Device
    ghost var sending: bool

    /** As after probing, which resets the device and so takes it offline first: a full refresh is due. */
    constructor (sender: Sender, native: bool, ghost device: Device)
      requires sender.Valid() && sender.packets == [] && sender.bufPos == 0
      requires device.fsm.op.CodeLow? && |device.display.mem| >= FB_SIZE
      ensures Valid() && this.sender == sender && this.device == device && !sending
      ensures dst0 == dst1 == dst2 == Zeros() && !dirty && forceFull && flags == 0 && this.native == native
      ensures D.Coherent(Abs())
    {
      this.sender := sender;
      dst0, dst1, dst2 := Zeros(), Zeros(), Zeros();
      dirty, forceFull := false, true;
      flags := 0;
      this.native := native;
      this.device, sending := device, false;
      new;
      assert D.Rest(Abs()) == [];
      D.FeedNothing(device);
    }

    ghost predicate Valid()
      reads this, sender, sender.buf
    {
      sender.Valid() && |dst0| == FB_SIZE && |dst1| == FB_SIZE && |dst2| == FB_SIZE
    }

    ghost function Abs(): D.State
      reads this, sender
    {
      D.State(dst0, dst1, dst2, dirty, forceFull, flags, sender.lastSentFlags, native,
              sender.enabled, sender.deviceOnline, sender.packets, sender.bufPos, sending, device)
    }

    /** `p4_send_clear` */
    method SendClear() returns (ok: bool)
      requires Valid()
      modifies sender`bufLen, sender`packets, sender.buf
      ensures Valid()
      ensures ok <==> sender.Room(old(sender.packets) + [D.ClearPacket(native)])
      ensures sender.packets == old(sender.packets) + if ok then [D.ClearPacket(native)] else []
    {
      InitDataFields(0, true, true, native, 0, FB_SIZE);
      var pkt := Packet(InitData(0, true, true, native, 0, FB_SIZE), [0]);
      ok := sender.BufEmit(pkt);
    }

    /** `p4_send_diff` over the whole frame */
    method SendDiff(oldBuf: seq<u8>, newBuf: seq<u8>, newFrame: bool) returns (ok: bool)
      requires Valid() && |oldBuf| == FB_SIZE && |newBuf| == FB_SIZE
      modifies sender`bufLen, sender`packets, sender.buf
      ensures Valid()
      ensures var ps := DiffPackets(Config(flags, native), newFrame, oldBuf, newBuf, 0, FB_SIZE);
              Outcome(ok, old(sender.packets), sender.packets, ps, sender.Room(old(sender.packets) + ps))
    {
      var enc := new EncoderState(flags, newFrame, native, sender);
      ok := enc.EncodeDiff(oldBuf, newBuf, 0, FB_SIZE);
    }

    /**
     * The encoding part of `encode_frame`: the frame is copied, and a clear packet, if a full refresh
     * is due, and the differences are emitted. `ps` are the packets of the frame.
     */
    method EncodePackets(ghost ps: seq<Packet>) returns (ok: bool)
      requires Valid() && ps == D.FramePackets(Abs())
      modifies this`dst1, this`dst2, sender`bufLen, sender`bufPos, sender`packets, sender.buf
      ensures Valid()
      ensures Abs() == old(Abs()).(dst1 := dst0, dst2 := D.Reference(old(Abs())), out := sender.packets, pos := 0)
      ensures ok <==> ps == [] || sender.Room(ps)
      ensures ok ==> sender.packets == ps
    {
      dst1 := dst0;
      var doFull := forceFull;
      sender.Reset();
      ghost var clear := [D.ClearPacket(native)];
      if doFull {
        dst2 := Zeros();
        assert [] + clear == clear;
        ok := SendClear();
        if !ok {
          WireAllPrefix(clear, ps);
          return;
        }
      }
      assert [] + ps == ps;
      ok := SendDiff(dst2, dst1, !doFull);
    }

    /** `encode_frame` once the device is online and the frame dirty. */
    method EncodeDirty() returns (ok: bool)
      requires Valid() && sender.packets == [] && sender.bufPos == 0 && sender.deviceOnline && dirty
      modifies this`dst1, this`dst2, this`dirty, this`forceFull
      modifies sender`bufLen, sender`bufPos, sender`packets, sender.buf
      ensures Valid()
      ensures Abs() == D.EncodeFrame(old(Abs()))
      ensures ok <==> sender.packets != []
    {
      ghost var ps := D.FramePackets(Abs());
      FrameOutcomes(Abs(), ps);
      ok := EncodePackets(ps);
      if !ok {
        sender.Reset();
        return;
      }
      EmptyBuffer(sender);
      dirty := false;
      if sender.IsEmpty() {
        return false;
      }
      forceFull := false;
    }

    /** `encode_frame`: exactly the step of the state machine, whichever way it ends. */
    method EncodeFrame() returns (ok: bool)
      requires Valid() && sender.packets == [] && sender.bufPos == 0
      modifies this`dst1, this`dst2, this`dirty, this`forceFull
      modifies sender`bufLen, sender`bufPos, sender`packets, sender.buf
      ensures Valid()
      ensures Abs() == D.EncodeFrame(old(Abs()))
      ensures ok <==> sender.packets != []
    {
      if !sender.deviceOnline {
        return false;
      }
      if !dirty {
        return false;
      }
      ok := EncodeDirty();
    }

    /** The flags-only packet of the drainer loop. */
    method EncodeFlags()
      requires Valid() && sender.packets == [] && sender.bufPos == 0
      modifies sender`bufLen, sender`packets, sender.buf
      ensures Valid()
      ensures Abs() == D.EncodeFlags(old(Abs()))
    {
      if flags != sender.lastSentFlags {
        var pkt := InitFlagsOnly(flags);
        assert [] + [pkt] == [pkt];
        WireAllSnoc([], pkt);
        var ok := sender.BufEmit(pkt);
      }
    }

    /** `hw_spi_transfer`, as far as the device is concerned: it takes the first `got` bytes. */
    ghost method SpiTransfer(got: nat)
      requires Valid() && sender.bufPos + got <= sender.bufLen
      modifies this`device
      ensures device == Feed(old(device), D.Rest(old(Abs()))[..got])
    {
      device := Feed(device, D.Rest(Abs())[..got]);
    }

    /** The first half of the drainer loop: encode, and decide whether to send. */
    method Prepare(hw: bool, ready: bool) returns (go: bool)
      requires Valid() && sender.packets == [] && sender.bufPos == 0 && !sending
      modifies this`dst1, this`dst2, this`dirty, this`forceFull, this`sending
      modifies sender`bufLen, sender`bufPos, sender`packets, sender.buf
      ensures Valid() && go == sending && (go ==> !sender.IsEmpty())
      ensures Abs() == D.Wake(old(Abs()), hw, ready)
    {
      if hw {
        var encoded := EncodeFrame();
      }
      EmptyBuffer(sender);
      if sender.IsEmpty() {
        EncodeFlags();
      }
      EmptyBuffer(sender);
      if sender.IsEmpty() || !sender.deviceOnline || !ready {
        sender.Reset();
        return false;
      }
      sending := true;
      go := true;
    }

    /** One attempt of the send loop. */
    method SendChunk(answer: Transfer) returns (ok: bool)
      requires Valid() && sending && !sender.IsEmpty()
      modifies this`device, this`sending, sender`bufLen, sender`bufPos, sender`packets
      ensures Valid() && ok == answer.Sent?
      ensures Abs() == match answer
                       case Sent => D.SendChunk(old(Abs()))
                       case NotReady => D.SendFails(old(Abs()), 0)
                       case Failed(got) => D.SendFails(old(Abs()), Min(got, Min(SPI_CHUNK_MAX, |D.Rest(old(Abs()))|)))
      ensures ok ==> sender.bufLen == old(sender.bufLen) && sender.bufPos > old(sender.bufPos)
    {
      var chunk := Min(SPI_CHUNK_MAX, sender.bufLen - sender.bufPos);
      assert |D.Rest(Abs())| == sender.bufLen - sender.bufPos;
      match answer
      case NotReady =>
        SpiTransfer(0);
        sender.Reset();
        sending := false;
        ok := false;
      case Failed(got) =>
        SpiTransfer(Min(got, chunk));
        sender.Reset();
        sending := false;
        ok := false;
      case Sent =>
        SpiTransfer(chunk);
        sender.bufPos := sender.bufPos + chunk;
        ok := true;
    }

    /** The send loop and what follows it. */
    method SendBuffer(env: nat -> Transfer)
      requires Valid() && sending && !sender.IsEmpty()
      modifies this`dst1, this`dst2, this`device, this`sending
      modifies sender`bufLen, sender`bufPos, sender`packets, sender`lastSentFlags
      ensures Valid()
      ensures Abs() == SendLoop(old(Abs()), env, 0)
    {
      var k: nat := 0;
      while sender.bufPos < sender.bufLen
        invariant Valid() && sending && sender.bufLen > 0
        invariant SendLoop(Abs(), env, k) == SendLoop(old(Abs()), env, 0)
        decreases sender.bufLen - sender.bufPos
      {
        assert |D.Rest(Abs())| == sender.bufLen - sender.bufPos;
        var sendOk := SendChunk(env(k));
        if !sendOk {
          return;
        }
        k := k + 1;
      }
      assert D.Rest(Abs()) == [];
      dst1, dst2 := dst2, dst1;
      sender.lastSentFlags := flags;
      sender.Reset();
      sending := false;
    }

    /**
     * One turn of the drainer loop: encode, send in chunks while the device is ready, and let the
     * frames change places if everything went out.
     */
    method Drain(hw: bool, ready: bool, env: nat -> Transfer)
      requires Valid() && sender.packets == [] && sender.bufPos == 0 && !sending
      modifies this`dst1, this`dst2, this`dirty, this`forceFull, this`device, this`sending
      modifies sender`bufLen, sender`bufPos, sender`packets, sender`lastSentFlags, sender.buf
      ensures Valid()
      ensures Abs() == Turn(old(Abs()), hw, ready, env)
    {
      var go := Prepare(hw, ready);
      if go {
        SendBuffer(env);
      }
    }

    /** The flags of `p4_update`; `image` is what it makes of `dst0`. */
    method Update(image: seq<u8>, refresh: bool, newNative: bool)
      requires Valid() && |image| == FB_SIZE
      modifies this`dst0, this`dirty, this`forceFull, this`native
      ensures Valid()
      ensures Abs() == D.Update(old(Abs()), image, refresh, newNative)
    {
      if !sender.enabled {
        return;
      }
      var rotationChanged := native != newNative;
      native := newNative;
      var fullRefresh := forceFull || rotationChanged || refresh;
      dst0 := image;
      if fullRefresh {
        forceFull := true;
      }
      dirty := true;
    }

    /**
     * `p4_update` in rotated mode. If the accumulated frame was the rotation of the picture before,
     * and the clips cover what changed, it becomes the rotation of the new picture; after a full
     * refresh it does so whatever it was. The flags change as the state machine says.
     */
    method UpdateRotated(img: M.Picture, refresh: bool, clips: seq<M.Clip>, simd: bool, ghost was: M.Picture)
      requires Valid()
      requires forceFull || native || refresh || (M.IsRotationOf(SCREEN, dst0, was) && M.Covers(SCREEN, clips, was, img))
      modifies this`dst0, this`dirty, this`forceFull, this`native
      ensures Valid()
      ensures Abs() == D.Update(old(Abs()), dst0, refresh, false)
      ensures sender.enabled ==> M.IsRotationOf(SCREEN, dst0, img) && dirty
      ensures sender.enabled ==> PictureAt(dst0, img)
      ensures !sender.enabled ==> Abs() == old(Abs())
    {
      if !sender.enabled {
        return;
      }
      var full := forceFull || native || refresh;
      var frame := dst0;
      var srcBuf := new u8[FB_SIZE];
      var dst := new u8[FB_SIZE](i requires 0 <= i < |frame| => frame[i]);
      assert dst[..] == frame;
      M.Accumulate(SCREEN, img, srcBuf, dst, full, clips, simd, was);
      Update(dst[..], refresh, false);
      RotationIsPictureAt(dst0, img);
    }
  }

  lemma EmptyBuffer(s: Sender)
    requires s.Valid() && s.bufPos == 0
    ensures s.packets == [] <==> s.IsEmpty()
  {}
}
