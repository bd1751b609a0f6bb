/**
 * The packet format of kmod/update.h, and the reference decoder of kmod/tests.c.
 */
module Packets {
  import opened Bytes

  /** The bytes of `struct packet_header` that go on the wire. */
  datatype Header =
    | FlagsOnly(cmd: u8, flags: u8)
    | Data(cmd: u8, flags: u8, addrHi: u8, addrLo: u8, lenLo: u8, lenHi: u8)

  /** A header with the payload it points to. */
  datatype Packet = Packet(hdr: Header, data: seq<u8>)

  const RLE_MIN_RUN := 8
  const CMD_LEN_FLAGS_ONLY := 1
  const CMD_LEN_DATA := 3
  const HDR_SIZE_FLAGS_ONLY := 2
  const HDR_SIZE_DATA := 6

  function Bit(b: bool): nat {
    if b then 1 else 0
  }

  /** `struct cmd_byte`, allocated from the least significant bit up. */
  function CmdByte(rle: bool, newFrame: bool, bitrev: bool, cmdLen: nat): u8
    requires cmdLen < 4
  {
    128 * Bit(rle) + 64 * Bit(newFrame) + 32 * Bit(bitrev) + 2 * cmdLen + 1
  }

  function CmdLen(cmd: u8): nat { cmd / 2 % 4 }

  predicate CmdRle(cmd: u8) { cmd / 128 == 1 }

  predicate CmdNewFrame(cmd: u8) { cmd / 64 % 2 == 1 }

  predicate CmdBitrev(cmd: u8) { cmd / 32 % 2 == 1 }

  /** `pkt_init_flags_only` */
  function InitFlagsOnly(flags: u8): Packet {
    Packet(FlagsOnly(CmdByte(false, false, false, CMD_LEN_FLAGS_ONLY), flags), [])
  }

  /** `pkt_init_data`; the shifted length is truncated to 16 bits. */
  function InitData(flags: u8, newFrame: bool, rle: bool, bitrev: bool, addr: u16, len: u16): Header {
    var wireLen := (len as int) * 2 % 0x1_0000;
    Data(CmdByte(rle, newFrame, bitrev, CMD_LEN_DATA), flags, addr / 256 % 128, addr % 256,
         wireLen % 256, wireLen / 256 % 256)
  }

  /** `pkt_addr` */
  function PktAddr(h: Header): nat
    requires h.Data?
  {
    h.addrHi % 128 * 256 + h.addrLo
  }

  /** `pkt_len` */
  function PktLen(h: Header): nat
    requires h.Data?
  {
    (h.lenLo + 256 * h.lenHi) / 2
  }

  function HeaderBytes(h: Header): seq<u8> {
    match h
    case FlagsOnly(cmd, flags) => [cmd, flags]
    case Data(cmd, flags, addrHi, addrLo, lenLo, lenHi) => [cmd, flags, addrHi, addrLo, lenLo, lenHi]
  }

  /** What a packet puts on the wire. */
  function Wire(p: Packet): seq<u8> {
    HeaderBytes(p.hdr) + p.data
  }

  function WireAll(ps: seq<Packet>): seq<u8> {
    if ps == [] then [] else Wire(ps[0]) + WireAll(ps[1..])
  }

  /** The command byte tells the layout, and the payload has the announced size. */
  predicate WellFormed(p: Packet) {
    match p.hdr
    case FlagsOnly(cmd, _) => CmdLen(cmd) == CMD_LEN_FLAGS_ONLY && p.data == []
    case Data(cmd, _, _, _, _, _) =>
      CmdLen(cmd) == CMD_LEN_DATA && |p.data| == if CmdRle(cmd) then 1 else PktLen(p.hdr)
  }

  ghost predicate AllWellFormed(ps: seq<Packet>) {
    forall k | 0 <= k < |ps| :: WellFormed(ps[k])
  }

  // ---- Decoding ----

  datatype Decoded = NeedMore | Invalid | Got(consumed: nat, pkt: Packet)

  /** `pkt_decode` */
  function Decode(buf: seq<u8>): Decoded {
    if |buf| < 1 then NeedMore
    else if CmdLen(buf[0]) == CMD_LEN_FLAGS_ONLY then
      if |buf| < HDR_SIZE_FLAGS_ONLY then NeedMore
      else Got(HDR_SIZE_FLAGS_ONLY, Packet(FlagsOnly(buf[0], buf[1]), []))
    else if CmdLen(buf[0]) == CMD_LEN_DATA then
      if |buf| < HDR_SIZE_DATA then NeedMore
      else
        var hdr := Data(buf[0], buf[1], buf[2], buf[3], buf[4], buf[5]);
        var dataLen := if CmdRle(buf[0]) then 1 else PktLen(hdr);
        var total := HDR_SIZE_DATA + dataLen;
        if |buf| < total then NeedMore else Got(total, Packet(hdr, buf[HDR_SIZE_DATA..total]))
    else Invalid
  }

  /** The packets of a stream, up to the first incomplete or invalid one. */
  function DecodeAll(buf: seq<u8>): (r: (seq<Packet>, seq<u8>))
    decreases |buf|
  {
    match Decode(buf)
    case Got(n, p) => var (ps, rest) := DecodeAll(buf[n..]); ([p] + ps, rest)
    case _ => ([], buf)
  }

  /** Decoding undoes encoding, whatever follows the packet. */
  lemma DecodeWire(p: Packet, rest: seq<u8>)
    requires WellFormed(p)
    ensures Decode(Wire(p) + rest) == Got(|Wire(p)|, p)
    ensures (Wire(p) + rest)[|Wire(p)|..] == rest
  {
    var buf := Wire(p) + rest;
    assert buf[|HeaderBytes(p.hdr)|..|Wire(p)|] == p.data;
    assert buf[..|HeaderBytes(p.hdr)|] == HeaderBytes(p.hdr);
    match p.hdr
    case FlagsOnly(cmd, flags) => assert buf[0] == cmd && buf[1] == flags;
    case Data(cmd, flags, addrHi, addrLo, lenLo, lenHi) =>
      assert buf[0] == cmd && buf[1] == flags && buf[2] == addrHi && buf[3] == addrLo;
      assert buf[4] == lenLo && buf[5] == lenHi;
  }

  /** Every proper prefix of a packet asks for more data. */
  lemma DecodePrefix(p: Packet, n: nat)
    requires WellFormed(p) && n < |Wire(p)|
    ensures Decode(Wire(p)[..n]) == NeedMore
  {
    var w := Wire(p);
    if n > 0 {
      assert w[..n][0] == p.hdr.cmd;
    }
    if p.hdr.Data? && n >= HDR_SIZE_DATA {
      assert w[..n][4] == p.hdr.lenLo && w[..n][5] == p.hdr.lenHi;
    }
  }

  lemma DecodeOne(p: Packet, rest: seq<u8>)
    requires WellFormed(p)
    ensures DecodeAll(Wire(p) + rest) == ([p] + DecodeAll(rest).0, DecodeAll(rest).1)
  {
    DecodeWire(p, rest);
  }

  /**
   * Stream round trip: a stream of packets, cut off anywhere inside a next one, decodes to exactly
   * those packets and leaves the cut-off bytes.
   */
  lemma {:induction false} DecodeStream(ps: seq<Packet>, next: Packet, n: nat)
    requires AllWellFormed(ps) && WellFormed(next) && n < |Wire(next)|
    ensures DecodeAll(WireAll(ps) + Wire(next)[..n]) == (ps, Wire(next)[..n])
  {
    var tail := Wire(next)[..n];
    if ps == [] {
      assert WireAll(ps) + tail == tail;
      DecodePrefix(next, n);
    } else {
      var rest := WireAll(ps[1..]) + tail;
      assert WireAll(ps) + tail == Wire(ps[0]) + rest;
      DecodeOne(ps[0], rest);
      DecodeStream(ps[1..], next, n);
      assert [ps[0]] + ps[1..] == ps;
    }
  }

  lemma {:induction false} WireAllConcat(ps: seq<Packet>, qs: seq<Packet>)
    ensures WireAll(ps + qs) == WireAll(ps) + WireAll(qs)
  {
    if ps == [] {
      assert ps + qs == qs;
    } else {
      assert (ps + qs)[1..] == ps[1..] + qs;
      WireAllConcat(ps[1..], qs);
    }
  }

  lemma WireAllPrefix(ps: seq<Packet>, qs: seq<Packet>)
    requires ps <= qs
    ensures |WireAll(ps)| <= |WireAll(qs)|
  {
    WireAllConcat(ps, qs[|ps|..]);
    assert ps + qs[|ps|..] == qs;
  }

  lemma WireAllSnoc(ps: seq<Packet>, p: Packet)
    ensures WireAll(ps + [p]) == WireAll(ps) + Wire(p)
  {
    WireAllConcat(ps, [p]);
    assert [p][1..] == [];
    assert WireAll([p]) == Wire(p) + WireAll([]) == Wire(p);
  }

  /** What `pkt_init_data` writes, the accessors and the command byte read back. */
  lemma InitDataFields(flags: u8, newFrame: bool, rle: bool, bitrev: bool, addr: nat, len: nat)
    requires addr < 0x8000 && len < 0x8000
    ensures var h := InitData(flags, newFrame, rle, bitrev, addr, len);
            && PktAddr(h) == addr && PktLen(h) == len && h.flags == flags && h.lenLo % 2 == 0
            && CmdRle(h.cmd) == rle && CmdNewFrame(h.cmd) == newFrame && CmdBitrev(h.cmd) == bitrev
            && CmdLen(h.cmd) == CMD_LEN_DATA
  {
    var wireLen := len * 2;
    assert wireLen % 0x1_0000 == wireLen;
    assert wireLen == wireLen / 256 * 256 + wireLen % 256;
  }

  /** The bytes on the wire, in numbers: the length is doubled and its low byte comes first, unlike the address. */
  lemma WireFormat(flags: u8, newFrame: bool, rle: bool, bitrev: bool, addr: nat, len: nat, data: seq<u8>)
    requires addr < 0x8000 && len < 0x8000
    ensures Wire(Packet(InitData(flags, newFrame, rle, bitrev, addr, len), data))
         == [7 + (if rle then 0x80 else 0) + (if newFrame then 0x40 else 0) + (if bitrev then 0x20 else 0), flags,
             addr / 256, addr % 256, 2 * len % 256, 2 * len / 256] + data
    ensures Wire(InitFlagsOnly(flags)) == [3, flags]
  {
    InitDataFields(flags, newFrame, rle, bitrev, addr, len);
  }

  // ---- Applying a packet to a framebuffer ----

  /** The bytes a packet stands for: a repeated byte, or its payload. */
  function Expand(p: Packet): (s: seq<u8>)
    requires WellFormed(p) && p.hdr.Data?
    ensures |s| == PktLen(p.hdr)
  {
    if CmdRle(p.hdr.cmd) then seq(PktLen(p.hdr), _ => p.data[0]) else p.data
  }

  /** `fb` with `s` written at `addr`. */
  function Patch(fb: seq<u8>, addr: nat, s: seq<u8>): (r: seq<u8>)
    requires addr + |s| <= |fb|
    ensures |r| == |fb|
    ensures forall i | 0 <= i < |fb| :: r[i] == if addr <= i < addr + |s| then s[i - addr] else fb[i]
  {
    fb[..addr] + s + fb[addr + |s|..]
  }

  /** What `pkt_apply` makes of a framebuffer: out-of-bounds packets are ignored. */
  function Apply(fb: seq<u8>, p: Packet): (r: seq<u8>)
    requires WellFormed(p)
    ensures |r| == |fb|
  {
    if p.hdr.FlagsOnly? || PktAddr(p.hdr) + PktLen(p.hdr) > |fb| then fb
    else Patch(fb, PktAddr(p.hdr), View(CmdBitrev(p.hdr.cmd), Expand(p)))
  }

  ghost function ApplyAll(fb: seq<u8>, ps: seq<Packet>): (r: seq<u8>)
    requires AllWellFormed(ps)
    ensures |r| == |fb|
    decreases |ps|
  {
    if ps == [] then fb else ApplyAll(Apply(fb, ps[0]), ps[1..])
  }

  /** `pkt_apply`, writing the framebuffer in place. */
  method PktApply(p: Packet, fb: array<u8>)
    requires WellFormed(p)
    modifies fb
    ensures fb[..] == Apply(old(fb[..]), p)
  {
    if p.hdr.FlagsOnly? {
      return;
    }
    var addr, len := PktAddr(p.hdr), PktLen(p.hdr);
    if addr + len > fb.Length {
      return;
    }
    var bitrev := CmdBitrev(p.hdr.cmd);
    ghost var before := fb[..];
    if CmdRle(p.hdr.cmd) {
      var val := p.data[0];
      if bitrev {
        val := Rev8(val);
      }
      forall i | 0 <= i < len {
        fb[addr + i] := val;
      }
    } else if bitrev {
      for i := 0 to len
        invariant forall k | 0 <= k < fb.Length ::
          fb[k] == if addr <= k < addr + i then Rev8(p.data[k - addr]) else before[k]
      {
        fb[addr + i] := Rev8(p.data[i]);
      }
    } else {
      forall i | 0 <= i < len {
        fb[addr + i] := p.data[i];
      }
    }
    assert forall k | 0 <= k < fb.Length :: fb[k] == Apply(before, p)[k];
  }
}
