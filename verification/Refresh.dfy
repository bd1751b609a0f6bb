/** The `cold` output of fpga/priveye.v: whether the display still needs a complete refresh. */
module Refresh {
  import opened Bytes
  import opened Packets
  import opened CommandFsm
  import opened Transmitter
  import opened PrivEye
  import opened Refinement
  import opened Drainer

  // ---- What the counter counts ----

  /** Image bytes since the last BOS sequence, until there were enough; then enough for good. */
  function Progress(n: nat, e: CommandFsm.Event): nat {
    if n == FULL_REFRESH_BYTES then n
    else match e
         case ImageByte(_) => n + 1
         case _ => 0
  }

  function Refreshed(t: seq<CommandFsm.Event>): (n: nat)
    ensures n <= FULL_REFRESH_BYTES
  {
    if t == [] then 0 else Progress(Refreshed(t[..|t| - 1]), t[|t| - 1])
  }

  ghost predicate ImageRun(t: seq<CommandFsm.Event>, lo: nat, hi: nat)
    requires hi <= |t|
  {
    forall j | lo <= j < hi :: t[j].ImageByte?
  }

  /** A whole screen of image bytes from index `i` on, without a BOS sequence in between. */
  ghost predicate WholeScreen(t: seq<CommandFsm.Event>, i: nat) {
    i + FULL_REFRESH_BYTES <= |t| && ImageRun(t, i, i + FULL_REFRESH_BYTES)
  }

  ghost predicate FullRefresh(t: seq<CommandFsm.Event>) {
    exists i: nat :: WholeScreen(t, i)
  }

  lemma {:induction false} RefreshedTail(t: seq<CommandFsm.Event>)
    ensures Refreshed(t) <= |t|
    ensures Refreshed(t) < FULL_REFRESH_BYTES ==> ImageRun(t, |t| - Refreshed(t), |t|)
    ensures Refreshed(t) == FULL_REFRESH_BYTES ==> FullRefresh(t)
    decreases |t|
  {
    if t != [] {
      var s := t[..|t| - 1];
      RefreshedTail(s);
      if Refreshed(s) == FULL_REFRESH_BYTES {
        var i: nat :| WholeScreen(s, i);
        assert WholeScreen(t, i);
      } else if Refreshed(t) == FULL_REFRESH_BYTES {
        assert WholeScreen(t, |t| - FULL_REFRESH_BYTES);
      }
    }
  }

  lemma {:induction false} RunRefreshes(t: seq<CommandFsm.Event>, lo: nat, n: nat)
    requires lo + n <= |t| && n <= FULL_REFRESH_BYTES && ImageRun(t, lo, lo + n)
    ensures Refreshed(t[..lo + n]) >= n
    decreases n
  {
    if n > 0 {
      RunRefreshes(t, lo, n - 1);
      assert t[..lo + n][..lo + n - 1] == t[..lo + n - 1];
    }
  }

  lemma {:induction false} RefreshedStays(t: seq<CommandFsm.Event>, n: nat)
    requires n <= |t| && Refreshed(t[..n]) == FULL_REFRESH_BYTES
    ensures Refreshed(t) == FULL_REFRESH_BYTES
    decreases |t|
  {
    if n < |t| {
      assert t[..|t| - 1][..n] == t[..n];
      RefreshedStays(t[..|t| - 1], n);
    } else {
      assert t[..n] == t;
    }
  }

  /** The count is full exactly when the trace contains a complete refresh. */
  lemma RefreshedIff(t: seq<CommandFsm.Event>)
    ensures Refreshed(t) == FULL_REFRESH_BYTES <==> FullRefresh(t)
  {
    RefreshedTail(t);
    if FullRefresh(t) {
      var i: nat :| WholeScreen(t, i);
      RunRefreshes(t, i, FULL_REFRESH_BYTES);
      RefreshedStays(t, i + FULL_REFRESH_BYTES);
    }
  }

  // ---- The counter register follows the wires ----

  /** A latched byte is counted one clock later; the zapping of the count starts one clock after the BOS line fell. */
  function Due(h: Hw): nat {
    if h.refresh == FULL_REFRESH_BYTES then h.refresh
    else if !h.ctl.nbos then 0
    else h.refresh + if h.tx.ack then 1 else 0
  }

  lemma LineFallsOrLatches(h: Hw, e: Env)
    requires Handshakes(h) && Framed(h)
    ensures Emits(h, e) == (if h.ctl.nbos && !CtlNext(h, e).nbos then [BosBegin]
                            else if Latches(h.tx, h.ctl.transmit) then [Labelled(h.ctl.nbos, TxData(h))]
                            else [])
    ensures h.ctl.nbos && !CtlNext(h, e).nbos ==> !Latches(h.tx, h.ctl.transmit) && !h.tx.ack
    ensures !h.ctl.nbos && CtlNext(h, e).nbos ==> !Latches(h.tx, h.ctl.transmit) && !h.tx.ack
  {}

  lemma CounterFollows(h: Hw, e: Env)
    requires Handshakes(h) && Framed(h) && e.online && h.refresh <= FULL_REFRESH_BYTES
    ensures var h' := Edge(h, e);
            h'.refresh <= FULL_REFRESH_BYTES
    ensures Due(Edge(h, e)) == if Emits(h, e) == [] then Due(h) else Progress(Due(h), Emits(h, e)[0])
  {
    LineFallsOrLatches(h, e);
  }

  ghost predicate Counting(r: Run) {
    r.h.refresh <= FULL_REFRESH_BYTES && Due(r.h) == Refreshed(r.emitted)
  }

  lemma RefreshedNext(emitted: seq<Event>, out: seq<Event>)
    requires |out| <= 1
    ensures Refreshed(emitted + out) == if out == [] then Refreshed(emitted) else Progress(Refreshed(emitted), out[0])
  {
    if out == [] {
      assert emitted + out == emitted;
    } else {
      assert (emitted + out)[..|emitted|] == emitted;
    }
  }

  lemma InStepIsSound(r: Run)
    requires InStep(r)
    ensures Handshakes(r.h) && Framed(r.h)
  {}

  lemma EdgeCounts(r: Run, e: Env)
    requires Handshakes(r.h) && Framed(r.h) && Counting(r) && Calm(e)
    ensures Counting(RunEdge(r, e))
  {
    CounterFollows(r.h, e);
    LineFallsOrLatches(r.h, e);
    RefreshedNext(r.emitted, Emits(r.h, e));
  }

  lemma {:induction false} RunCounts(r: Run, es: seq<Env>)
    requires InStep(r) && Counting(r) && Undisturbed(es)
    ensures Counting(RunAll(r, es)) && InStep(RunAll(r, es))
    decreases |es|
  {
    if es != [] {
      EdgeInStep(r, es[0]);
      InStepIsSound(r);
      EdgeCounts(r, es[0]);
      RunCounts(RunEdge(r, es[0]), es[1..]);
    }
  }

  /**
   * From any state of rest with a zero counter, as after reset and any clocks offline, over every
   * undisturbed run: once the last acknowledgement is counted, `cold` is low exactly when a whole
   * screen of image bytes has gone out with no BOS sequence in between.
   */
  lemma ColdIff(h: Hw, es: seq<Env>)
    requires Rested(h) && h.refresh == 0 && Undisturbed(es)
    ensures var r := RunAll(Start(h), es);
            !r.h.tx.ack ==> (Cold(r.h) <==> !FullRefresh(r.emitted))
  {
    StartInStep(h);
    RunCounts(Start(h), es);
    RefreshedIff(RunAll(Start(h), es).emitted);
  }

  // ---- Every run, time-outs included ----

  /** What the counter sees of a clock edge: an acknowledgement, and whether the BOS line is low. */
  datatype Seen = Seen(ack: bool, bos: bool)

  function Observed(h: Hw, es: seq<Env>): seq<Seen>
    decreases |es|
  {
    if es == [] then [] else [Seen(h.tx.ack, !h.ctl.nbos)] + Observed(Edge(h, es[0]), es[1..])
  }

  function Acks(t: seq<Seen>): nat {
    if t == [] then 0 else Acks(t[..|t| - 1]) + if t[|t| - 1].ack then 1 else 0
  }

  /** From `i` to `j` a whole screen of bytes is acknowledged, and the BOS line is never low. */
  ghost predicate Stretch(t: seq<Seen>, i: nat, j: nat) {
    i <= j <= |t| && (forall k | i <= k < j :: !t[k].bos) && Acks(t[i..j]) >= FULL_REFRESH_BYTES
  }

  ghost predicate Warmed(t: seq<Seen>) {
    exists i: nat, j: nat :: Stretch(t, i, j)
  }

  function Tally(n: nat, o: Seen): nat {
    if n == FULL_REFRESH_BYTES then n else if o.bos then 0 else n + if o.ack then 1 else 0
  }

  function Tallied(t: seq<Seen>): (n: nat)
    ensures n <= FULL_REFRESH_BYTES
  {
    if t == [] then 0 else Tally(Tallied(t[..|t| - 1]), t[|t| - 1])
  }

  function TallyFrom(n: nat, t: seq<Seen>): nat
    decreases |t|
  {
    if t == [] then n else TallyFrom(Tally(n, t[0]), t[1..])
  }

  lemma {:induction false} TallyFromSnoc(n: nat, t: seq<Seen>, o: Seen)
    ensures TallyFrom(n, t + [o]) == Tally(TallyFrom(n, t), o)
    decreases |t|
  {
    if t == [] {
      assert (t + [o])[1..] == [];
    } else {
      assert (t + [o])[1..] == t[1..] + [o];
      TallyFromSnoc(Tally(n, t[0]), t[1..], o);
    }
  }

  lemma {:induction false} TallyFromZero(t: seq<Seen>)
    ensures TallyFrom(0, t) == Tallied(t)
    decreases |t|
  {
    if t != [] {
      var s := t[..|t| - 1];
      TallyFromZero(s);
      assert t == s + [t[|t| - 1]];
      TallyFromSnoc(0, s, t[|t| - 1]);
    }
  }

  lemma {:induction false} CounterTallies(h: Hw, es: seq<Env>)
    requires h.refresh <= FULL_REFRESH_BYTES && Online(es)
    ensures After(h, es).refresh == TallyFrom(h.refresh, Observed(h, es))
    decreases |es|
  {
    if es != [] {
      var rest := Observed(Edge(h, es[0]), es[1..]);
      assert ([Seen(h.tx.ack, !h.ctl.nbos)] + rest)[1..] == rest;
      CounterTallies(Edge(h, es[0]), es[1..]);
    }
  }

  predicate Online(es: seq<Env>) {
    forall i | 0 <= i < |es| :: es[i].online
  }

  /** Below the limit, the tally counts the acknowledgements since some point after which the line was high. */
  ghost predicate CountsSince(t: seq<Seen>, i: nat) {
    i <= |t| && (forall k | i <= k < |t| :: !t[k].bos) && Acks(t[i..]) == Tallied(t)
  }

  lemma WarmedStays(s: seq<Seen>, o: Seen)
    requires Warmed(s)
    ensures Warmed(s + [o])
  {
    var i: nat, j: nat :| Stretch(s, i, j);
    assert (s + [o])[i..j] == s[i..j];
    assert Stretch(s + [o], i, j);
  }

  lemma CountsOn(s: seq<Seen>, o: Seen, i: nat)
    requires CountsSince(s, i) && !o.bos && Tallied(s) < FULL_REFRESH_BYTES
    ensures CountsSince(s + [o], i)
  {
    var t := s + [o];
    assert t[i..] == s[i..] + [o] && t[i..][..|s[i..]|] == s[i..];
    assert t[..|s|] == s;
  }

  lemma CountedIsWarm(t: seq<Seen>, i: nat)
    requires CountsSince(t, i) && Tallied(t) == FULL_REFRESH_BYTES
    ensures Warmed(t)
  {
    assert t[i..|t|] == t[i..];
    assert Stretch(t, i, |t|);
  }

  lemma {:induction false} TalliedMeans(t: seq<Seen>) returns (i: nat)
    ensures Tallied(t) < FULL_REFRESH_BYTES ==> CountsSince(t, i)
    ensures Tallied(t) == FULL_REFRESH_BYTES ==> Warmed(t)
    decreases |t|
  {
    if t == [] {
      i := 0;
      return;
    }
    var s, o := t[..|t| - 1], t[|t| - 1];
    assert t == s + [o];
    i := TalliedMeans(s);
    if Tallied(s) == FULL_REFRESH_BYTES {
      WarmedStays(s, o);
    } else if o.bos {
      i := |t|;
    } else {
      CountsOn(s, o, i);
      if Tallied(t) == FULL_REFRESH_BYTES {
        CountedIsWarm(t, i);
      }
    }
  }

  lemma {:induction false} StretchTallies(t: seq<Seen>, i: nat, j: nat)
    requires i <= j <= |t| && forall k | i <= k < j :: !t[k].bos
    ensures Tallied(t[..j]) >= if Acks(t[i..j]) < FULL_REFRESH_BYTES then Acks(t[i..j]) else FULL_REFRESH_BYTES
    decreases j
  {
    if i < j {
      StretchTallies(t, i, j - 1);
      assert t[..j][..j - 1] == t[..j - 1] && t[i..j][..j - 1 - i] == t[i..j - 1];
    } else {
      assert t[i..j] == [];
    }
  }

  lemma {:induction false} TalliedStays(t: seq<Seen>, j: nat)
    requires j <= |t| && Tallied(t[..j]) == FULL_REFRESH_BYTES
    ensures Tallied(t) == FULL_REFRESH_BYTES
    decreases |t|
  {
    if j < |t| {
      assert t[..|t| - 1][..j] == t[..j];
      TalliedStays(t[..|t| - 1], j);
    } else {
      assert t[..j] == t;
    }
  }

  lemma TalliedIff(t: seq<Seen>)
    ensures Tallied(t) == FULL_REFRESH_BYTES <==> Warmed(t)
  {
    var i0 := TalliedMeans(t);
    if Warmed(t) {
      var i: nat, j: nat :| Stretch(t, i, j);
      StretchTallies(t, i, j);
      TalliedStays(t, j);
    }
  }

  /** Where `cold` begins: after reset, and after any clock edge offline. */
  ghost predicate Begins(h: Hw) {
    (exists bus :: h == AfterReset(bus)) || (exists g: Hw, e: Env :: !e.online && h == Edge(g, e))
  }

  /**
   * From reset or any offline edge, whatever state it finds, over every run that stays online,
   * time-outs included: `cold` is high until a whole screen of bytes has been acknowledged without
   * the BOS line being low in between, and low from then on.
   */
  lemma ColdUntilRefreshed(h: Hw, es: seq<Env>)
    requires Begins(h) && Online(es)
    ensures Cold(After(h, es)) <==> !Warmed(Observed(h, es))
  {
    assert h.refresh == 0;
    CounterTallies(h, es);
    TallyFromZero(Observed(h, es));
    TalliedIff(Observed(h, es));
  }

  /** Once low it stays low as long as the display is online, from any state. */
  lemma {:induction false} StaysWarm(h: Hw, es: seq<Env>)
    requires !Cold(h) && Online(es)
    ensures !Cold(After(h, es))
    decreases |es|
  {
    if es != [] {
      StaysWarm(Edge(h, es[0]), es[1..]);
    }
  }

  // ---- The driver's clear packet ----

  lemma ClearHeader(flags: u8, native: bool, len: u16, p: Packet)
    requires len == FB_SIZE && p == Packet(InitData(flags, true, true, native, 0, len), [0])
    ensures ProperData(p) && PktLen(p.hdr) == len && |Expand(p)| == len
  {
    InitDataFields(flags, true, true, native, 0, len);
    assert CmdRle(p.hdr.cmd) && CmdLen(p.hdr.cmd) == CMD_LEN_DATA;
    assert p.hdr.cmd % 2 == 1;
  }

  lemma ClearPacketIsProper(native: bool)
    ensures var p := ClearPacket(native);
            ProperData(p) && PktLen(p.hdr) == FULL_REFRESH_BYTES && |Expand(p)| == FULL_REFRESH_BYTES
  {
    ClearHeader(0, native, FB_SIZE, ClearPacket(native));
  }

  lemma ClearPacketRefreshes(pre: seq<CommandFsm.Event>, native: bool, post: seq<CommandFsm.Event>)
    requires ProperData(ClearPacket(native))
    ensures FullRefresh(pre + PacketEvents(ClearPacket(native)) + post)
  {
    ClearPacketIsProper(native);
    var t := pre + PacketEvents(ClearPacket(native)) + post;
    var lo := |pre| + 4;
    forall j | lo <= j < lo + FULL_REFRESH_BYTES
      ensures t[j].ImageByte?
    {
      assert t[j] == PacketEvents(ClearPacket(native))[j - |pre|];
    }
    assert WholeScreen(t, lo);
  }

  /** Whatever went before and comes after, a clear packet that was carried out warms the display up. */
  lemma ClearPacketWarms(h: Hw, es: seq<Env>, pre: seq<u8>, native: bool, post: seq<u8>)
    requires Rested(h) && h.refresh == 0 && Undisturbed(es)
    requires RunAll(Start(h), es).popped == pre + Wire(ClearPacket(native)) + post
    requires Interpret(FsmOf(h), pre).0.op == CodeLow
    ensures var r := RunAll(Start(h), es);
            Quiet(r.h) && !r.h.tx.ack ==> !Cold(r.h)
  {
    var p := ClearPacket(native);
    WiresFollowInterpreter(h, es);
    ColdIff(h, es);
    ClearPacketIsProper(native);
    var f := Interpret(FsmOf(h), pre).0;
    DataPacketEvents(f, p);
    InterpretConcat(FsmOf(h), pre, Wire(p));
    InterpretConcat(FsmOf(h), pre + Wire(p), post);
    ClearPacketRefreshes(Interpret(FsmOf(h), pre).1, native, Interpret(ModesOf(p.hdr.cmd), post).1);
  }
}
