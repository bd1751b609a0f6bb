/** What the drainer is sure to do: what comes back after an interruption, and what goes out at rest. */
module Delivers {
  import opened Bytes
  import opened Packets
  import opened CommandFsm
  import opened EndToEnd
  import opened Drainer
  import S = Sends

  // ---- After an interruption ----

  /** The newest frame goes out, and nothing is left pending. */
  ghost predicate Shown(s: State, frame: seq<u8>) {
    && Coherent(s) && !s.sending && !s.dirty && !s.forceFull
    && Shows(s.device, s.native, frame) && s.dst0 == frame
  }

  lemma StillAtRest(s: State, t: State)
    requires Coherent(s) && !s.sending
    requires t == s.(online := t.online, enabled := t.enabled, dirty := true, forceFull := true)
    ensures Coherent(t)
  {
    assert Rest(t) == Rest(s);
  }

  lemma DueIsShown(t: State)
    requires Coherent(t) && !t.sending && t.dirty && Fits(t, FramePackets(t))
    ensures Shown(Cycle(t), t.dst0)
  {
    CycleDelivers(t);
    CycleKeepsFrame(t);
  }

  lemma CycleKeepsFrame(t: State)
    requires Coherent(t) && !t.sending && t.dirty && Fits(t, FramePackets(t))
    ensures Cycle(t).dst0 == t.dst0 && Cycle(t).native == t.native
  {
    WakeKeepsIff(t, true, true);
    NoPackets(t);
    EncodeFrameKeeps(t);
    if Wake(t, true, true).sending {
      SendAllArrives(Wake(t, true, true));
    }
  }

  /** A display that is plugged in gets the newest frame on the next vertical blank, drawn or not. */
  lemma ReconnectDelivers(s: State)
    requires Coherent(s) && !s.sending && !s.online && s.enabled
    requires var t := Next(s, Reconnect); |WireAll(FramePackets(t))| <= SPI_BUF_SIZE
    ensures Shown(Cycle(Next(s, Reconnect)), s.dst0)
  {
    StillAtRest(s, Next(s, Reconnect));
    DueIsShown(Next(s, Reconnect));
  }

  /** READY rising while the display is online means nothing: a driver at rest stays at rest. */
  lemma ReconnectWhenOnline(s: State, hw: bool, ready: bool)
    requires WellTyped(s) && !s.sending && s.online && !s.dirty && s.flags == s.lastSent
    ensures var w := Wake(Next(s, Reconnect), hw, ready);
            !w.sending && w.device == s.device && w.forceFull == s.forceFull && !w.dirty
  {}

  /** So it does after a disconnection if the drainer thread finds the display again. */
  lemma DisconnectionDelivers(s: State)
    requires Coherent(s) && !s.sending && s.enabled
    requires var t := Next(Next(s, Disconnect), GoOnline); |WireAll(FramePackets(t))| <= SPI_BUF_SIZE
    ensures Shown(Cycle(Next(Next(s, Disconnect), GoOnline)), s.dst0)
  {
    StillAtRest(s, Next(Next(s, Disconnect), GoOnline));
    DueIsShown(Next(Next(s, Disconnect), GoOnline));
  }

  /** A display that lost its picture while powered down gets it back, enabled again. */
  lemma PowerUpDelivers(s: State)
    requires Coherent(s) && !s.sending && s.online
    requires var t := Next(s, PowerUp(true)); |WireAll(FramePackets(t))| <= SPI_BUF_SIZE
    ensures Shown(Cycle(Next(s, PowerUp(true))), s.dst0)
  {
    StillAtRest(s, Next(s, PowerUp(true)));
    DueIsShown(Next(s, PowerUp(true)));
  }

  /** Without loss, powering up takes nothing away and lets the next frame out. */
  lemma PowerUpWarm(s: State, image: seq<u8>)
    requires Coherent(s) && !s.sending && s.online && |image| == FB_SIZE
    requires var t := Next(Next(s, PowerUp(false)), UpdateEvent(image, false, s.native));
             |WireAll(FramePackets(t))| <= SPI_BUF_SIZE
    ensures var t := Next(Next(s, PowerUp(false)), UpdateEvent(image, false, s.native));
            t.forceFull == s.forceFull && Shown(Cycle(t), image)
  {
    var t := Next(Next(s, PowerUp(false)), UpdateEvent(image, false, s.native));
    assert Rest(t) == Rest(s);
    DueIsShown(t);
  }

  /** The steps after which the next frame begins with a clear packet. */
  predicate Refreshes(s: State, e: Action) {
    match e
    case Enable => true
    case PowerUp(cold) => cold
    case GoOffline => true
    case Disconnect => true
    case Reconnect => !s.online
    case UpdateEvent(_, refresh, native) => s.enabled && (refresh || native != s.native)
    case _ => false
  }

  lemma ClearGoesFirst(s: State, e: Action)
    requires WellTyped(s) && Enabled(s, e) && Refreshes(s, e)
    ensures var ps := FramePackets(Next(s, e)); ps != [] && ps[0] == ClearPacket(Next(s, e).native)
  {}

  /** An update while the display is enabled and online is shown after one undisturbed cycle. */
  lemma UpdateDelivers(s: State, image: seq<u8>, refresh: bool, native: bool)
    requires Coherent(s) && !s.sending && s.enabled && s.online && |image| == FB_SIZE
    requires var t := Next(s, UpdateEvent(image, refresh, native)); |WireAll(FramePackets(t))| <= SPI_BUF_SIZE
    ensures var u := Cycle(Next(s, UpdateEvent(image, refresh, native))); Shown(u, image) && u.native == native
  {
    var t := Next(s, UpdateEvent(image, refresh, native));
    assert Rest(t) == Rest(s);
    DueIsShown(t);
    CycleKeepsFrame(t);
  }

  /** A frame that does not fit, or finds the sender disabled, stays due, and the next try encodes the same. */
  lemma UnfitFrameStaysDue(s: State)
    requires WellTyped(s) && s.online && s.dirty && FramePackets(s) != [] && !Fits(s, FramePackets(s))
    ensures var t := EncodeFrame(s);
            && t.out == [] && t.dirty && t.forceFull == s.forceFull && t.device == s.device
            && FramePackets(t) == FramePackets(s)
  {}

  // ---- Flags ----

  /**
   * A change of flags at rest goes out with the next wake-up, faux or real, that has no frame to send:
   * afterwards the device holds the flags, the driver knows it, and the picture is untouched.
   */
  lemma FlagsGoOut(s: State, flags: u8, hw: bool)
    requires Coherent(s) && !s.sending && s.enabled && s.online && flags != s.lastSent
    requires hw ==> EncodeFrame(Next(s, SetFlags(flags))).out == []
    ensures var w := Wake(Next(s, SetFlags(flags)), hw, true);
            && w.sending && WellTyped(w) && w.pos == 0
            && var u := SendAll(w);
               && u.device.display.flags == flags == u.lastSent
               && u.device.display.mem == s.device.display.mem && u.device.fsm.op.CodeLow?
  {
    var t := Next(s, SetFlags(flags));
    var w := Wake(t, hw, true);
    assert Rest(s) == [];
    FeedNothing(s.device);
    FlagsWake(t, hw);
    FlagsPacket(s.device, flags);
    SendAllArrives(w);
  }

  lemma FlagsWake(t: State, hw: bool)
    requires WellTyped(t) && !t.sending && t.enabled && t.online && t.flags != t.lastSent
    requires hw ==> EncodeFrame(t).out == []
    ensures var w := Wake(t, hw, true);
            && w.sending && WellTyped(w) && w.pos == 0 && w.device == t.device && w.flags == t.flags
            && Rest(w) == Wire(InitFlagsOnly(t.flags))
  {
    S.OnlyOne(InitFlagsOnly(t.flags));
    var w := Wake(t, hw, true);
    assert w.out == [InitFlagsOnly(t.flags)];
    assert Rest(w) == WireAll(w.out);
  }

  // ---- Silence ----

  predicate TurnsOn(e: Action) {
    e.Enable? || e.PowerUp? || e.GoOnline? || e.Reconnect?
  }

  /** Nothing is being sent, and the sender is disabled or the device offline. */
  predicate Off(s: State) {
    !s.sending && !(s.enabled && s.online)
  }

  lemma OffSendsNothing(s: State, e: Action)
    requires WellTyped(s) && Enabled(s, e) && Off(s) && !TurnsOn(e)
    ensures Off(Next(s, e)) && S.Sent(s, e) == []
  {
    if e.WakeUp? {
      OffEncodesNothing(s, e.hw, e.ready);
    }
  }

  lemma OffEncodesNothing(s: State, hw: bool, ready: bool)
    requires WellTyped(s) && Off(s)
    ensures Off(Wake(s, hw, ready))
  {
    var t := if hw then EncodeFrame(s) else s;
    assert t.out == [] && t.enabled == s.enabled && t.online == s.online;
  }

  lemma {:induction false} OffStaysSilent(t: S.Tracked, es: seq<Action>, u: S.Tracked)
    requires S.Logged(t) && Off(t.s) && S.Runs(t, es, u) && forall e | e in es :: !TurnsOn(e)
    ensures Off(u.s) && S.SentAll(t, es) == []
    decreases |es|
  {
    if es != [] {
      assert es[0] in es && forall e | e in es[1..] :: e in es;
      OffSendsNothing(t.s, es[0]);
      OffStaysSilent(S.Track(t, es[0]), es[1..], u);
    }
  }

  /** Switched off, unplugged or taken offline between two sends, the driver sends nothing until it is told to. */
  lemma SilentWhenOff(t: S.Tracked, off: Action, es: seq<Action>, u: S.Tracked)
    requires S.Safe(t) && !t.s.sending && (off.Disable? || off.GoOffline? || off.Disconnect?)
    requires S.Logged(S.Track(t, off)) && S.Runs(S.Track(t, off), es, u) && forall e | e in es :: !TurnsOn(e)
    ensures !u.s.sending && S.SentAll(S.Track(t, off), es) == []
  {
    OffStaysSilent(S.Track(t, off), es, u);
  }
}
