/** What the device makes of a stream of packets that breaks off somewhere. */
module Cuts {
  import opened Bytes
  import opened Packets
  import opened DiffScan
  import opened Encoder
  import opened CommandFsm
  import opened EndToEnd

  /** The bytes of a data packet that the FPGA takes as a BOS command. */
  const BOS_SIZE := 4

  /** A packet such as the driver sends. */
  ghost predicate Proper(p: Packet) {
    DriverPacket(p) || p == InitFlagsOnly(p.hdr.flags)
  }

  ghost predicate AllProper(ps: seq<Packet>) {
    forall k | 0 <= k < |ps| :: Proper(ps[k])
  }

  /**
   * Byte `n` of the stream starts a command, or ends the stream: `n` lies between two packets, or
   * inside a data packet between its BOS command and its image command.
   */
  predicate CommandStart(ps: seq<Packet>, n: nat)
    decreases |ps|
  {
    || n == 0
    || (ps != [] && ps[0].hdr.Data? && n == BOS_SIZE)
    || (ps != [] && |Wire(ps[0])| <= n && CommandStart(ps[1..], n - |Wire(ps[0])|))
  }

  /** How many packets are whole among the first `n` bytes. */
  function Whole(ps: seq<Packet>, n: nat): (k: nat)
    ensures k <= |ps|
    decreases |ps|
  {
    if ps == [] || n < |Wire(ps[0])| then 0 else 1 + Whole(ps[1..], n - |Wire(ps[0])|)
  }

  // ---- Inside one packet ----

  lemma {:induction false} BosPartial(f: Fsm, s: seq<u8>)
    requires f.op.BosPayload? && |s| < f.op.left
    ensures Interpret(f, s).0.op == BosPayload(f.op.left - |s|)
    decreases |s|
  {
    if s != [] {
      BosPartial(Step(f, s[0]).0, s[1..]);
    }
  }

  lemma {:induction false} ImagePartial(f: Fsm, s: seq<u8>)
    requires f.op.ImagePayload? && |s| < f.op.left && (f.dup ==> s == [])
    ensures Interpret(f, s).0.op == ImagePayload(f.op.left - |s|)
    decreases |s|
  {
    if s != [] {
      ImagePartial(Step(f, s[0]).0, s[1..]);
    }
  }

  lemma BosCut(f: Fsm, p: Packet, n: nat)
    requires f.op.CodeLow? && ProperData(p) && 0 < n < BOS_SIZE
    ensures Interpret(f, Wire(p)[..n]).0.op == BosPayload(BOS_SIZE - n)
  {
    var w := Wire(p)[..n];
    assert w == [p.hdr.cmd] + w[1..];
    BosStart(f, p.hdr.cmd);
    InterpretCons(f, p.hdr.cmd, w[1..]);
    BosPartial(Step(f, p.hdr.cmd).0, w[1..]);
  }

  lemma ImageCut(f: Fsm, p: Packet, n: nat)
    requires f.op.CodeLow? && ProperData(p) && BOS_SIZE < n < |Wire(p)|
    ensures !Interpret(f, Wire(p)[..n]).0.op.CodeLow?
  {
    var h := p.hdr;
    var g := ModesOf(h.cmd);
    var tail := Wire(p)[BOS_SIZE..n];
    assert Wire(p)[..n] == [h.cmd, h.flags, h.addrHi, h.addrLo] + tail;
    BosHeader(f, h.cmd, h.flags, h.addrHi, h.addrLo, tail);
    if n == 5 {
      assert tail == [h.lenLo] + [];
      InterpretCons(g, h.lenLo, []);
    } else {
      var rest := Wire(p)[6..n];
      assert tail == [h.lenLo, h.lenHi] + rest;
      ImageHeader(g, h.lenLo, h.lenHi, rest);
      ImagePartial(g.(op := ImagePayload(PktLen(h))), rest);
    }
  }

  /** After its first four bytes, a data packet has set flags and address and shown nothing. */
  lemma BosDone(d: Device, p: Packet)
    requires d.fsm.op.CodeLow? && ProperData(p)
    ensures var d' := Feed(d, Wire(p)[..BOS_SIZE]);
            d'.fsm.op.CodeLow? && d'.display.mem == d.display.mem && d'.display.flags == p.hdr.flags
  {
    var h := p.hdr;
    assert Wire(p)[..BOS_SIZE] == [h.cmd, h.flags, h.addrHi, h.addrLo] + [];
    BosHeader(d.fsm, h.cmd, h.flags, h.addrHi, h.addrLo, []);
    ShowBos(d.display, h.flags, h.addrHi, h.addrLo);
    assert [BosBegin, BosByte(h.flags), BosByte(h.addrHi), BosByte(h.addrLo)] + []
        == [BosBegin, BosByte(h.flags), BosByte(h.addrHi), BosByte(h.addrLo)];
  }

  /** Inside a packet, the interpreter waits for a command only between a data packet's two commands. */
  lemma PacketCut(f: Fsm, p: Packet, n: nat)
    requires f.op.CodeLow? && Proper(p) && 0 < n < |Wire(p)|
    ensures Interpret(f, Wire(p)[..n]).0.op.CodeLow? <==> p.hdr.Data? && n == BOS_SIZE
  {
    if p.hdr.FlagsOnly? {
      assert Wire(p)[..n] == [p.hdr.cmd] + [];
      InterpretCons(f, p.hdr.cmd, []);
    } else if n < BOS_SIZE {
      BosCut(f, p, n);
    } else if n == BOS_SIZE {
      BosDone(Device(f, Display(0, 0, 0, [])), p);
    } else {
      ImageCut(f, p, n);
    }
  }

  // ---- Across packets ----

  lemma CutsFirst(ps: seq<Packet>, n: nat)
    requires ps != [] && n <= |WireAll(ps)|
    ensures n <= |Wire(ps[0])| ==> WireAll(ps)[..n] == Wire(ps[0])[..n]
    ensures |Wire(ps[0])| <= n ==> WireAll(ps)[..n] == Wire(ps[0]) + WireAll(ps[1..])[..n - |Wire(ps[0])|]
  {}

  lemma WholePacket(d: Device, p: Packet)
    requires d.fsm.op.CodeLow? && Proper(p)
    ensures Interpret(d.fsm, Wire(p)).0.op.CodeLow?
  {
    if p.hdr.FlagsOnly? {
      FlagsPacket(d, p.hdr.flags);
    } else {
      DataPacketEvents(d.fsm, p);
    }
  }

  /** A stream of packets that breaks off leaves the interpreter waiting for a command exactly at a command start. */
  lemma {:induction false} WaitsIff(f: Fsm, ps: seq<Packet>, n: nat)
    requires f.op.CodeLow? && AllProper(ps) && n <= |WireAll(ps)|
    ensures Interpret(f, WireAll(ps)[..n]).0.op.CodeLow? <==> CommandStart(ps, n)
    decreases |ps|
  {
    if n > 0 {
      var p := ps[0];
      CutsFirst(ps, n);
      if n < |Wire(p)| {
        PacketCut(f, p, n);
      } else {
        var m := n - |Wire(p)|;
        WholePacket(Device(f, Display(0, 0, 0, [])), p);
        InterpretConcat(f, Wire(p), WireAll(ps[1..])[..m]);
        WaitsIff(Interpret(f, Wire(p)).0, ps[1..], m);
      }
    }
  }

  /** Whole packets leave the interpreter waiting for a command. */
  lemma {:induction false} AllWaits(f: Fsm, ps: seq<Packet>)
    requires f.op.CodeLow? && AllProper(ps)
    ensures Interpret(f, WireAll(ps)).0.op.CodeLow?
    decreases |ps|
  {
    if ps != [] {
      WholePacket(Device(f, Display(0, 0, 0, [])), ps[0]);
      InterpretConcat(f, Wire(ps[0]), WireAll(ps[1..]));
      AllWaits(Interpret(f, Wire(ps[0])).0, ps[1..]);
    }
  }

  /** All the packets carry these flags. */
  ghost predicate Carry(ps: seq<Packet>, flags: u8) {
    forall k | 0 <= k < |ps| :: ps[k].hdr.flags == flags
  }

  lemma DriverIsProper(ps: seq<Packet>)
    requires AllDriver(ps)
    ensures AllProper(ps) && AllWellFormed(ps)
    ensures forall k | 0 <= k <= |ps| :: AllDriver(ps[..k]) && AllDriver(ps[k..])
  {}

  lemma OnePacket(d: Device, p: Packet)
    requires d.fsm.op.CodeLow? && |d.display.mem| >= FB_SIZE && DriverPacket(p)
    ensures |Wire(p)| > HDR_SIZE_DATA
    ensures var d' := Feed(d, Wire(p));
            && d'.fsm.op.CodeLow? && d'.display.mem == Apply(d.display.mem, p) && d'.display.flags == p.hdr.flags
  {
    DataPacket(d, p);
  }

  lemma FirstApplied(fb: seq<u8>, ps: seq<Packet>, k: nat)
    requires ps != [] && k < |ps| && AllWellFormed(ps)
    ensures AllWellFormed(ps[1..][..k]) && AllWellFormed(ps[..k + 1])
    ensures ApplyAll(fb, ps[..k + 1]) == ApplyAll(Apply(fb, ps[0]), ps[1..][..k])
  {
    assert ps[..k + 1][1..] == ps[1..][..k];
  }

  /** What the display holds after a cut: the whole packets, and the flags of the last packet begun. */
  lemma {:induction false} CutEffect(d: Device, ps: seq<Packet>, n: nat, flags: u8)
    requires d.fsm.op.CodeLow? && |d.display.mem| >= FB_SIZE
    requires AllDriver(ps) && Carry(ps, flags) && n <= |WireAll(ps)| && CommandStart(ps, n)
    ensures AllWellFormed(ps[..Whole(ps, n)])
    ensures var d' := Feed(d, WireAll(ps)[..n]);
            && d'.display.mem == ApplyAll(d.display.mem, ps[..Whole(ps, n)])
            && d'.display.flags == if n == 0 then d.display.flags else flags
    decreases |ps|
  {
    DriverIsProper(ps);
    if n > 0 {
      var p := ps[0];
      CutsFirst(ps, n);
      OnePacket(d, p);
      if n < |Wire(p)| {
        BosDone(d, p);
      } else {
        var m := n - |Wire(p)|;
        FeedConcat(d, Wire(p), WireAll(ps[1..])[..m]);
        CutEffect(Feed(d, Wire(p)), ps[1..], m, flags);
        FirstApplied(d.display.mem, ps, Whole(ps[1..], m));
      }
    }
  }

  // ---- Across the packets of a difference ----

  lemma DrawsFirst(c: Config, newFrame: bool, img: seq<u8>, lo: nat, ps: seq<Packet>, hi: nat)
    requires DrawsAll(c, newFrame, img, lo, ps, hi) && Hits(ps, lo)
    ensures ps != [] && ps[0].hdr.Data? && PktAddr(ps[0].hdr) == lo
  {
    if PktAddr(ps[0].hdr) > lo {
      DrawsBound(c, false, img, End(ps[0]), ps[1..], hi);
    }
  }

  lemma {:induction false} DrawsPrefix(c: Config, newFrame: bool, img: seq<u8>, lo: nat, ps: seq<Packet>, hi: nat, k: nat)
    requires DrawsAll(c, newFrame, img, lo, ps, hi) && k <= |ps|
    ensures DrawsAll(c, newFrame, img, lo, ps[..k], hi)
    decreases |ps|
  {
    DrawsBound(c, newFrame, img, lo, ps, hi);
    if k > 0 {
      assert ps[..k][1..] == ps[1..][..k - 1];
      DrawsPrefix(c, false, img, End(ps[0]), ps[1..], hi, k - 1);
    }
  }

  lemma {:induction false} DrawsCarry(c: Config, newFrame: bool, img: seq<u8>, lo: nat, ps: seq<Packet>, hi: nat)
    requires DrawsAll(c, newFrame, img, lo, ps, hi)
    ensures AllDriver(ps) && Carry(ps, c.flags)
    decreases |ps|
  {
    if ps != [] {
      DrawsCarry(c, false, img, End(ps[0]), ps[1..], hi);
      assert forall k | 0 < k < |ps| :: ps[k] == ps[1..][k - 1];
    }
  }

  /** The packets of a whole-frame difference: what they draw, and that the first starts on a change. */
  ghost predicate Redraws(c: Config, newFrame: bool, oldBuf: seq<u8>, newBuf: seq<u8>, ps: seq<Packet>)
    requires |oldBuf| == FB_SIZE && |newBuf| == FB_SIZE
  {
    && DrawsAll(c, newFrame, newBuf, 0, ps, FB_SIZE)
    && (ps != [] ==> var a := PktAddr(ps[0].hdr); a < FB_SIZE && oldBuf[a] != newBuf[a])
  }

  lemma DiffRedraws(c: Config, newFrame: bool, oldBuf: seq<u8>, newBuf: seq<u8>)
    requires |oldBuf| == FB_SIZE && |newBuf| == FB_SIZE
    ensures Redraws(c, newFrame, oldBuf, newBuf, DiffPackets(c, newFrame, oldBuf, newBuf, 0, FB_SIZE))
  {
    var rs := ScanRegions(oldBuf, newBuf, 0, FB_SIZE);
    ScanRegionsFit(oldBuf, newBuf, 0, FB_SIZE);
    ScanRegionsFound(oldBuf, newBuf, 0, FB_SIZE);
    RegionsDraw(c, newFrame, newBuf, 0, rs);
    FoundRedraws(c, newFrame, oldBuf, newBuf, rs, Spans(c, newFrame, newBuf, 0, rs));
  }

  lemma FoundRedraws(c: Config, newFrame: bool, oldBuf: seq<u8>, newBuf: seq<u8>, rs: seq<Region>, pss: seq<seq<Packet>>)
    requires |oldBuf| == FB_SIZE && |newBuf| == FB_SIZE && FoundRegions(oldBuf, newBuf, 0, FB_SIZE, rs)
    requires DrawsRegions(c, newFrame, newBuf, 0, rs, pss)
    ensures Redraws(c, newFrame, oldBuf, newBuf, Flatten(pss))
  {
    var lo := if rs == [] then 0 else rs[0].start;
    FlattenDraws(c, newFrame, newBuf, 0, rs, pss, lo, FB_SIZE);
    DrawsFrom(c, newFrame, newBuf, lo, 0, Flatten(pss), FB_SIZE);
    if rs != [] {
      assert Covered(rs, lo) && Hits(Flatten(pss), 0 + lo);
      DrawsFirst(c, newFrame, newBuf, lo, Flatten(pss), FB_SIZE);
    }
  }

  /** Once the first packet of a difference is whole, the old frame is gone. */
  lemma PrefixRedraws(c: Config, newFrame: bool, oldBuf: seq<u8>, newBuf: seq<u8>, ps: seq<Packet>, k: nat, fb: seq<u8>)
    requires |oldBuf| == FB_SIZE && |newBuf| == FB_SIZE && Redraws(c, newFrame, oldBuf, newBuf, ps)
    requires 0 < k <= |ps| && |fb| >= FB_SIZE
    ensures AllWellFormed(ps[..k])
    ensures var a := PktAddr(ps[0].hdr);
            ApplyAll(fb, ps[..k])[a] != Flip(c.bitrev, oldBuf[a])
  {
    var a := PktAddr(ps[0].hdr);
    DrawsPrefix(c, newFrame, newBuf, 0, ps, FB_SIZE, k);
    ApplyDraws(c, newFrame, newBuf, 0, ps[..k], FB_SIZE, fb);
    assert Hits(ps[..k], a);
    if ApplyAll(fb, ps[..k])[a] == Flip(c.bitrev, oldBuf[a]) {
      FlipInjective(c.bitrev, newBuf[a], oldBuf[a]);
    }
  }

  lemma NoneWholeIff(ps: seq<Packet>, n: nat)
    requires AllDriver(ps) && n <= |WireAll(ps)| && CommandStart(ps, n)
    ensures Whole(ps, n) == 0 <==> n <= BOS_SIZE
  {
    if ps != [] {
      assert DriverPacket(ps[0]);
    }
  }

  /**
   * A whole-frame difference that breaks off at a command start leaves the old frame on the display
   * exactly if nothing but a BOS command went out; the flags arrive with its second byte.
   */
  lemma CutShowsOldIff(d: Device, c: Config, newFrame: bool, oldBuf: seq<u8>, newBuf: seq<u8>, ps: seq<Packet>, n: nat)
    requires |oldBuf| == FB_SIZE && |newBuf| == FB_SIZE
    requires ps == DiffPackets(c, newFrame, oldBuf, newBuf, 0, FB_SIZE)
    requires d.fsm.op.CodeLow? && Shows(d, c.bitrev, oldBuf)
    requires n <= |WireAll(ps)| && CommandStart(ps, n)
    ensures var d' := Feed(d, WireAll(ps)[..n]);
            && (Shows(d', c.bitrev, oldBuf) <==> n <= BOS_SIZE)
            && d'.display.flags == if n == 0 then d.display.flags else c.flags
  {
    DiffRedraws(c, newFrame, oldBuf, newBuf);
    DrawsCarry(c, newFrame, newBuf, 0, ps, FB_SIZE);
    CutEffect(d, ps, n, c.flags);
    NoneWholeIff(ps, n);
    var k := Whole(ps, n);
    if k == 0 {
      assert ps[..k] == [];
    } else {
      PrefixRedraws(c, newFrame, oldBuf, newBuf, ps, k, d.display.mem);
    }
  }
}
