/**
 * The command interpreter of fpga/priveye.v, one byte at a time, and the display behind it.
 *
 * To the FPGA a data packet of the driver is two commands: a three-byte BOS command, whose sticky
 * mode bits govern the next image, and an image command with a 15-bit byte count.
 */
module CommandFsm {
  import opened Bytes
  import opened Packets

  /** What the interpreter waits for. `left` counts the payload bytes still to come. */
  datatype Op =
    | CodeLow
    | CodeHigh(low: nat)
    | BosPayload(left: nat)
    | ImagePayload(left: nat)

  /** The interpreter: its operation and the sticky modes. */
  datatype Fsm = Fsm(op: Op, dup: bool, newFrame: bool, rev: bool)

  /** The interpreter after a reset. */
  const INITIAL := Fsm(CodeLow, false, false, false)

  /** What the display sees: the start of a BOS sequence, its bytes, and image bytes. */
  datatype Event = BosBegin | BosByte(b: u8) | ImageByte(b: u8)

  /** The BOS byte count 0, 1 or 3 coded in bits 2 and 1 (`bos_low_seven`). */
  function BosCount(cmd: u8): nat {
    2 * (cmd / 4 % 2) + if cmd / 4 % 2 == 1 || cmd / 2 % 2 == 1 then 1 else 0
  }

  /** No byte, one or three; the code 2 means three like the code 3. */
  lemma BosCountIs(cmd: u8)
    ensures BosCount(cmd) == match CmdLen(cmd) case 0 => 0 case 1 => 1 case _ => 3
  {}

  /** One byte of the command stream: the next state and what is sent to the display. */
  function Step(f: Fsm, b: u8): (Fsm, seq<Event>) {
    match f.op
    case CodeLow =>
      if b % 2 == 1 then
        var n := BosCount(b);
        (Fsm(if n == 0 then CodeLow else BosPayload(n), b / 128 == 1, b / 64 % 2 == 1, b / 32 % 2 == 1),
         [BosBegin])
      else
        (f.(op := CodeHigh(b / 2)), [])
    case CodeHigh(low) =>
      var n := b * 128 + low;
      (f.(op := if n == 0 then CodeLow else ImagePayload(n)), [])
    case BosPayload(left) =>
      (f.(op := if left <= 1 then CodeLow else BosPayload(left - 1)), [BosByte(b)])
    case ImagePayload(left) =>
      if f.dup then
        (f.(op := CodeLow), seq(left, _ => ImageByte(Flip(f.rev, b))))
      else
        (f.(op := if left <= 1 then CodeLow else ImagePayload(left - 1)), [ImageByte(Flip(f.rev, b))])
  }

  /** The whole stream. */
  function Interpret(f: Fsm, s: seq<u8>): (Fsm, seq<Event>)
    decreases |s|
  {
    if s == [] then (f, [])
    else
      var (f1, ev1) := Step(f, s[0]);
      var (f2, ev2) := Interpret(f1, s[1..]);
      (f2, ev1 + ev2)
  }

  lemma {:induction false} InterpretConcat(f: Fsm, s: seq<u8>, t: seq<u8>)
    ensures var (f1, ev1) := Interpret(f, s);
            var (f2, ev2) := Interpret(f1, t);
            Interpret(f, s + t) == (f2, ev1 + ev2)
    decreases |s|
  {
    if s == [] {
      assert s + t == t;
      assert [] + Interpret(f, t).1 == Interpret(f, t).1;
    } else {
      assert (s + t)[1..] == s[1..] + t;
      var (f1, ev1) := Step(f, s[0]);
      InterpretConcat(f1, s[1..], t);
      var (f2, ev2) := Interpret(f1, s[1..]);
      var (f3, ev3) := Interpret(f2, t);
      assert ev1 + (ev2 + ev3) == ev1 + ev2 + ev3;
    }
  }

  // ---- The display ----

  /**
   * The display, as the driver assumes it (kmod/update.c:225-234): a BOS sequence sets the flags
   * and, if it is long enough, the address; image bytes are stored at the address, which then
   * advances and is never reset. `bos` counts the bytes of the current BOS sequence.
   */
  datatype Display = Display(flags: u8, addr: nat, bos: nat, mem: seq<u8>)

  function Show(d: Display, e: Event): Display {
    match e
    case BosBegin => d.(bos := 0)
    case BosByte(b) =>
      if d.bos == 0 then d.(flags := b, bos := 1)
      else if d.bos == 1 then d.(addr := b % 128 * 256 + d.addr % 256, bos := 2)
      else if d.bos == 2 then d.(addr := d.addr / 256 * 256 + b, bos := 3)
      else d
    case ImageByte(b) =>
      d.(addr := d.addr + 1, mem := if d.addr < |d.mem| then d.mem[d.addr := b] else d.mem)
  }

  function ShowAll(d: Display, es: seq<Event>): Display
    decreases |es|
  {
    if es == [] then d else ShowAll(Show(d, es[0]), es[1..])
  }

  lemma {:induction false} ShowConcat(d: Display, es: seq<Event>, fs: seq<Event>)
    ensures ShowAll(d, es + fs) == ShowAll(ShowAll(d, es), fs)
    decreases |es|
  {
    if es == [] {
      assert es + fs == fs;
    } else {
      assert (es + fs)[1..] == es[1..] + fs;
      ShowConcat(Show(d, es[0]), es[1..], fs);
    }
  }

  /** The interpreter and the display behind it. */
  datatype Device = Device(fsm: Fsm, display: Display)

  /** The device after some bytes. */
  function Feed(d: Device, s: seq<u8>): Device {
    var (f, es) := Interpret(d.fsm, s);
    Device(f, ShowAll(d.display, es))
  }

  lemma FeedConcat(d: Device, s: seq<u8>, t: seq<u8>)
    ensures Feed(d, s + t) == Feed(Feed(d, s), t)
  {
    InterpretConcat(d.fsm, s, t);
    ShowConcat(d.display, Interpret(d.fsm, s).1, Interpret(Interpret(d.fsm, s).0, t).1);
  }

  // ---- What a packet does to the device ----

  /** Image bytes `s`, written from the current address on. */
  function Written(d: Display, s: seq<u8>): Display
    requires d.addr + |s| <= |d.mem|
  {
    d.(addr := d.addr + |s|, mem := Patch(d.mem, d.addr, s))
  }

  function Images(s: seq<u8>): seq<Event> {
    seq(|s|, i requires 0 <= i < |s| => ImageByte(s[i]))
  }

  lemma {:induction false} ShowImages(d: Display, s: seq<u8>)
    requires d.addr + |s| <= |d.mem|
    ensures ShowAll(d, Images(s)) == Written(d, s)
    decreases |s|
  {
    if s == [] {
      assert Patch(d.mem, d.addr, s) == d.mem;
    } else {
      var d1 := Show(d, ImageByte(s[0]));
      assert Images(s)[1..] == Images(s[1..]);
      ShowImages(d1, s[1..]);
      assert Patch(d1.mem, d1.addr, s[1..]) == Patch(d.mem, d.addr, s);
    }
  }

  /** A literal image payload, or what is left of it. */
  lemma {:induction false} LiteralPayload(f: Fsm, s: seq<u8>)
    requires f.op == ImagePayload(|s|) && !f.dup && s != []
    ensures Interpret(f, s) == (f.(op := CodeLow), Images(View(f.rev, s)))
    decreases |s|
  {
    var f1 := Step(f, s[0]).0;
    var v := View(f.rev, s);
    assert v[1..] == View(f.rev, s[1..]);
    assert Images(v) == [ImageByte(v[0])] + Images(v[1..]);
    if |s| == 1 {
      assert s[1..] == [];
    } else {
      LiteralPayload(f1, s[1..]);
    }
  }

  lemma InterpretCons(f: Fsm, b: u8, s: seq<u8>)
    ensures Interpret(f, [b] + s)
         == (Interpret(Step(f, b).0, s).0, Step(f, b).1 + Interpret(Step(f, b).0, s).1)
  {
    assert ([b] + s)[1..] == s;
  }

  /** A repeated payload: one byte on the wire, `left` bytes to the display. */
  lemma RepeatedPayload(f: Fsm, b: u8)
    requires f.op.ImagePayload? && f.dup
    ensures Interpret(f, [b]) == (f.(op := CodeLow), Images(View(f.rev, seq(f.op.left, _ => b))))
  {
    InterpretCons(f, b, []);
    assert [b] + [] == [b];
    var es := Images(View(f.rev, seq(f.op.left, _ => b)));
    assert Step(f, b).1 == es == es + [];
  }

  /** The state in which a BOS command byte leaves the interpreter after its payload. */
  function ModesOf(cmd: u8): Fsm {
    Fsm(CodeLow, CmdRle(cmd), CmdNewFrame(cmd), CmdBitrev(cmd))
  }

  lemma BosStart(f: Fsm, cmd: u8)
    requires f.op.CodeLow? && cmd % 2 == 1 && CmdLen(cmd) == CMD_LEN_DATA
    ensures Step(f, cmd) == (ModesOf(cmd).(op := BosPayload(3)), [BosBegin])
  {
    assert cmd / 4 % 2 == 1 && cmd / 2 % 2 == 1;
  }

  function BosBytes(s: seq<u8>): seq<Event> {
    seq(|s|, i requires 0 <= i < |s| => BosByte(s[i]))
  }

  /** A BOS payload of any length: whatever the modes, its bytes are neither repeated nor reversed. */
  lemma {:induction false} BosPayloadBytes(f: Fsm, s: seq<u8>)
    requires f.op == BosPayload(|s|) && s != []
    ensures Interpret(f, s) == (f.(op := CodeLow), BosBytes(s))
    decreases |s|
  {
    var f1 := Step(f, s[0]).0;
    assert BosBytes(s) == [BosByte(s[0])] + BosBytes(s[1..]);
    if |s| == 1 {
      assert s[1..] == [];
    } else {
      BosPayloadBytes(f1, s[1..]);
    }
  }

  /** The three bytes of the driver's BOS commands, and what follows them. */
  lemma BosBody(g: Fsm, flags: u8, hi: u8, lo: u8, rest: seq<u8>)
    requires g.op.CodeLow?
    ensures Interpret(g.(op := BosPayload(3)), [flags] + ([hi] + ([lo] + rest)))
         == (Interpret(g, rest).0, [BosByte(flags)] + ([BosByte(hi)] + ([BosByte(lo)] + Interpret(g, rest).1)))
  {
    var f, s := g.(op := BosPayload(3)), [flags, hi, lo];
    BosPayloadBytes(f, s);
    InterpretConcat(f, s, rest);
    assert [flags] + ([hi] + ([lo] + rest)) == s + rest;
    assert BosBytes(s) == [BosByte(flags), BosByte(hi), BosByte(lo)];
    assert BosBytes(s) + Interpret(g, rest).1
        == [BosByte(flags)] + ([BosByte(hi)] + ([BosByte(lo)] + Interpret(g, rest).1));
  }

  /** The driver's BOS command with flags and address: it sets all three modes afresh. */
  lemma BosHeader(f: Fsm, cmd: u8, flags: u8, hi: u8, lo: u8, rest: seq<u8>)
    requires f.op.CodeLow? && cmd % 2 == 1 && CmdLen(cmd) == CMD_LEN_DATA
    ensures Interpret(f, [cmd, flags, hi, lo] + rest)
         == (Interpret(ModesOf(cmd), rest).0,
             [BosBegin, BosByte(flags), BosByte(hi), BosByte(lo)] + Interpret(ModesOf(cmd), rest).1)
  {
    var body := [flags] + ([hi] + ([lo] + rest));
    assert [cmd, flags, hi, lo] + rest == [cmd] + body;
    InterpretCons(f, cmd, body);
    BosStart(f, cmd);
    BosBody(ModesOf(cmd), flags, hi, lo, rest);
    var es := Interpret(ModesOf(cmd), rest).1;
    assert [BosBegin] + ([BosByte(flags)] + ([BosByte(hi)] + ([BosByte(lo)] + es)))
        == [BosBegin, BosByte(flags), BosByte(hi), BosByte(lo)] + es;
  }

  /** The two length bytes select an image payload of the announced size. */
  lemma ImageHeader(f: Fsm, lenLo: u8, lenHi: u8, rest: seq<u8>)
    requires f.op.CodeLow? && lenLo % 2 == 0 && lenLo as int + 256 * lenHi > 0
    ensures Interpret(f, [lenLo, lenHi] + rest)
         == Interpret(f.(op := ImagePayload((lenLo as int + 256 * lenHi) / 2)), rest)
  {
    var f1 := f.(op := CodeHigh(lenLo / 2));
    var f2 := f.(op := ImagePayload((lenLo as int + 256 * lenHi) / 2));
    assert [lenLo, lenHi] + rest == [lenLo] + ([lenHi] + rest);
    InterpretCons(f, lenLo, [lenHi] + rest);
    InterpretCons(f1, lenHi, rest);
    assert Step(f, lenLo) == (f1, []) && Step(f1, lenHi) == (f2, []);
    assert [] + ([] + Interpret(f2, rest).1) == Interpret(f2, rest).1;
  }

  lemma ShowFirst(d: Display, e: Event, es: seq<Event>)
    ensures ShowAll(d, [e] + es) == ShowAll(Show(d, e), es)
  {
    assert ([e] + es)[1..] == es;
  }

  lemma SetAddress(d: Display, flags: u8, hi: u8, lo: u8)
    requires d.bos == 0
    ensures Show(Show(Show(d, BosByte(flags)), BosByte(hi)), BosByte(lo))
         == d.(flags := flags, addr := hi % 128 * 256 + lo, bos := 3)
  {}

  lemma ShowBos(d: Display, flags: u8, hi: u8, lo: u8)
    ensures ShowAll(d, [BosBegin, BosByte(flags), BosByte(hi), BosByte(lo)])
         == d.(flags := flags, addr := hi % 128 * 256 + lo, bos := 3)
  {
    var e1, e2, e3 := BosByte(flags), BosByte(hi), BosByte(lo);
    var d1 := Show(d, BosBegin);
    assert [BosBegin, e1, e2, e3] == [BosBegin] + ([e1] + ([e2] + ([e3] + [])));
    ShowFirst(d, BosBegin, [e1] + ([e2] + ([e3] + [])));
    ShowFirst(d1, e1, [e2] + ([e3] + []));
    ShowFirst(Show(d1, e1), e2, [e3] + []);
    ShowFirst(Show(Show(d1, e1), e2), e3, []);
    SetAddress(d1, flags, hi, lo);
  }

  /** What a data packet is meant to do to the display. */
  function Patched(d: Display, p: Packet): Display
    requires WellFormed(p) && p.hdr.Data? && PktAddr(p.hdr) + PktLen(p.hdr) <= |d.mem|
  {
    Display(p.hdr.flags, PktAddr(p.hdr) + PktLen(p.hdr), 3,
            Patch(d.mem, PktAddr(p.hdr), View(CmdBitrev(p.hdr.cmd), Expand(p))))
  }

  /** A data packet the way the driver forms it: an odd command byte and a whole, positive length. */
  predicate ProperData(p: Packet) {
    && WellFormed(p) && p.hdr.Data? && p.hdr.cmd % 2 == 1
    && p.hdr.lenLo % 2 == 0 && PktLen(p.hdr) > 0
  }

  /** What the display sees of a data packet. */
  function PacketEvents(p: Packet): seq<Event>
    requires WellFormed(p) && p.hdr.Data?
  {
    [BosBegin, BosByte(p.hdr.flags), BosByte(p.hdr.addrHi), BosByte(p.hdr.addrLo)]
    + Images(View(CmdBitrev(p.hdr.cmd), Expand(p)))
  }

  lemma ImageCommand(g: Fsm, lenLo: u8, lenHi: u8, p: Packet)
    requires ProperData(p) && g == ModesOf(p.hdr.cmd) && p.hdr.lenLo == lenLo && p.hdr.lenHi == lenHi
    ensures Interpret(g, [lenLo, lenHi] + p.data) == (g, Images(View(g.rev, Expand(p))))
  {
    ImageHeader(g, lenLo, lenHi, p.data);
    var f := g.(op := ImagePayload(PktLen(p.hdr)));
    if g.dup {
      assert p.data == [p.data[0]];
      RepeatedPayload(f, p.data[0]);
    } else {
      LiteralPayload(f, p.data);
    }
  }

  /** Whatever modes the packets before left behind, a data packet means the same. */
  lemma DataPacketEvents(f: Fsm, p: Packet)
    requires f.op.CodeLow? && ProperData(p)
    ensures Interpret(f, Wire(p)) == (ModesOf(p.hdr.cmd), PacketEvents(p))
  {
    var h := p.hdr;
    var tail := [h.lenLo, h.lenHi] + p.data;
    assert Wire(p) == [h.cmd, h.flags, h.addrHi, h.addrLo] + tail;
    BosHeader(f, h.cmd, h.flags, h.addrHi, h.addrLo, tail);
    ImageCommand(ModesOf(h.cmd), h.lenLo, h.lenHi, p);
  }

  /**
   * A data packet, whatever modes the packets before it left behind: afterwards the interpreter
   * waits for a new command, the display has the packet's flags, its address is one past the
   * packet's end, and its memory is patched with the expanded payload, reversed if so marked.
   */
  lemma DataPacket(d: Device, p: Packet)
    requires d.fsm.op.CodeLow? && ProperData(p)
    requires PktAddr(p.hdr) + PktLen(p.hdr) <= |d.display.mem|
    ensures Feed(d, Wire(p)) == Device(ModesOf(p.hdr.cmd), Patched(d.display, p))
  {
    var h := p.hdr;
    var body := View(CmdBitrev(h.cmd), Expand(p));
    var bos := [BosBegin, BosByte(h.flags), BosByte(h.addrHi), BosByte(h.addrLo)];
    DataPacketEvents(d.fsm, p);
    ShowConcat(d.display, bos, Images(body));
    ShowBos(d.display, h.flags, h.addrHi, h.addrLo);
    ShowImages(ShowAll(d.display, bos), body);
  }

  /** A flags-only packet changes nothing but the flags and the sticky modes. */
  lemma FlagsPacket(d: Device, flags: u8)
    requires d.fsm.op.CodeLow?
    ensures var p := InitFlagsOnly(flags);
            Feed(d, Wire(p)) == Device(Fsm(CodeLow, false, false, false), d.display.(flags := flags, bos := 1))
  {
    var p := InitFlagsOnly(flags);
    var cmd := p.hdr.cmd;
    assert Wire(p) == [cmd] + ([flags] + []);
    var f1 := Step(d.fsm, cmd).0;
    InterpretCons(d.fsm, cmd, [flags] + []);
    InterpretCons(f1, flags, []);
    var es := [BosBegin, BosByte(flags)];
    assert Interpret(d.fsm, Wire(p)).1 == es;
    assert es[1..] == [BosByte(flags)] && es[1..][1..] == [];
    assert ShowAll(d.display, es) == ShowAll(Show(d.display, BosBegin), es[1..]);
    assert ShowAll(Show(d.display, BosBegin), es[1..]) == Show(Show(d.display, BosBegin), BosByte(flags));
  }
}
