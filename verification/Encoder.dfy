/** The packet encoder of kmod/update.c, feeding the send buffer. */
module Encoder {
  import opened Bytes
  import opened Callback
  import opened Packets
  import opened SendBuffer
  import opened DiffScan
  import opened RleScan

  // ---- Which packets a difference stands for ----

  /** The display flags and the bitrev setting shared by all packets of one encoding. */
  datatype Config = Config(flags: u8, bitrev: bool)

  /** The segment lies inside a span of `n` bytes. */
  predicate Inside(s: Segment, n: nat) {
    s.len > 0 && s.off + s.len <= n
  }

  predicate AllInside(segs: seq<Segment>, n: nat) {
    forall k | 0 <= k < |segs| :: Inside(segs[k], n)
  }

  /** The packet for one segment of the span `buf`, which starts at address `base`. */
  function SegmentPacket(c: Config, newFrame: bool, base: nat, buf: seq<u8>, s: Segment): (p: Packet)
    requires base + |buf| <= FB_SIZE && Inside(s, |buf|)
  {
    Packet(InitData(c.flags, newFrame, s.rle, c.bitrev, base + s.off, s.len),
           if s.rle then [buf[s.off]] else buf[s.off..s.off + s.len])
  }

  /** The packets for a list of segments; only the first can carry the new-frame flag. */
  function SegmentPackets(c: Config, newFrame: bool, base: nat, buf: seq<u8>, segs: seq<Segment>): (ps: seq<Packet>)
    requires base + |buf| <= FB_SIZE && AllInside(segs, |buf|)
    ensures |ps| == |segs|
  {
    seq(|segs|, k requires 0 <= k < |segs| => SegmentPacket(c, newFrame && k == 0, base, buf, segs[k]))
  }

  /** The packets for the span `buf` at address `base`. */
  function SpanPackets(c: Config, newFrame: bool, base: nat, buf: seq<u8>): (ps: seq<Packet>)
    requires base + |buf| <= FB_SIZE
    ensures |buf| > 0 ==> ps != []
  {
    SegmentsInside(buf, RLE_MIN_RUN);
    SegmentPackets(c, newFrame, base, buf, Segments(buf, RLE_MIN_RUN))
  }

  lemma {:induction false} PartitionInside(segs: seq<Segment>, lo: nat, hi: nat)
    requires Partition(segs, lo, hi)
    ensures lo <= hi && AllInside(segs, hi) && forall k | 0 <= k < |segs| :: lo <= segs[k].off
    ensures lo < hi ==> segs != []
  {
    if segs != [] {
      PartitionInside(segs[1..], lo + segs[0].len, hi);
    }
  }

  lemma SegmentsInside(buf: seq<u8>, minRun: nat)
    ensures AllInside(Segments(buf, minRun), |buf|)
    ensures |buf| > 0 ==> Segments(buf, minRun) != []
  {
    SplitIsPartition(buf, minRun, 0, 0);
    PartitionInside(Segments(buf, minRun), 0, |buf|);
  }

  /** The regions, shifted by `base`, lie inside the framebuffer and the image. */
  predicate RegionsFit(img: seq<u8>, base: nat, rs: seq<Region>) {
    forall k | 0 <= k < |rs| ::
      rs[k].start < rs[k].end && base + rs[k].end <= |img| && base + rs[k].end <= FB_SIZE
  }

  /** The packets of each region of the image `img`. */
  function Spans(c: Config, newFrame: bool, img: seq<u8>, base: nat, rs: seq<Region>): (pss: seq<seq<Packet>>)
    requires RegionsFit(img, base, rs)
    ensures |pss| == |rs|
  {
    seq(|rs|, k requires 0 <= k < |rs| =>
      SpanPackets(c, newFrame && k == 0, base + rs[k].start, img[base + rs[k].start..base + rs[k].end]))
  }

  function Flatten(pss: seq<seq<Packet>>): seq<Packet> {
    if pss == [] then [] else pss[0] + Flatten(pss[1..])
  }

  /** The packets for a list of regions; only the first can carry the new-frame flag. */
  function RegionPackets(c: Config, newFrame: bool, img: seq<u8>, base: nat, rs: seq<Region>): seq<Packet>
    requires RegionsFit(img, base, rs)
  {
    Flatten(Spans(c, newFrame, img, base, rs))
  }

  function RoundDown(n: nat): nat { n / 8 * 8 }

  function RoundUp(n: nat): nat { RoundDown(n + 7) }

  /** The regions `encode_diff` finds between `scanStart` and `scanEnd`, rounded out to words. */
  function ScanRegions(oldBuf: seq<u8>, newBuf: seq<u8>, scanStart: nat, scanEnd: nat): seq<Region>
    requires scanStart <= scanEnd && RoundUp(scanEnd) <= |oldBuf| && RoundUp(scanEnd) <= |newBuf|
  {
    var s, e := RoundDown(scanStart), RoundUp(scanEnd);
    Regions(oldBuf[s..], newBuf[s..], e - s, HDR_SIZE_DATA)
  }

  lemma TightFits(a: seq<u8>, b: seq<u8>, n: nat, rs: seq<Region>, img: seq<u8>, base: nat)
    requires n <= |a| && n <= |b| && Tight(a, b, n, rs) && base + n <= |img| && base + n <= FB_SIZE
    ensures RegionsFit(img, base, rs)
  {}

  lemma RegionsFitAt(a: seq<u8>, b: seq<u8>, len: nat, img: seq<u8>, base: nat)
    requires len <= |a| && len <= |b| && base + len <= |img| && base + len <= FB_SIZE
    ensures RegionsFit(img, base, Regions(a, b, len, HDR_SIZE_DATA))
  {
    RegionsAreTheDifferences(a, b, len, HDR_SIZE_DATA);
    TightFits(a, b, len / 8 * 8, Regions(a, b, len, HDR_SIZE_DATA), img, base);
  }

  lemma RoundsOut(scanStart: nat, scanEnd: nat)
    requires scanStart <= scanEnd
    ensures RoundDown(scanStart) <= RoundUp(scanEnd)
  {}

  lemma ScanRegionsFit(oldBuf: seq<u8>, newBuf: seq<u8>, scanStart: nat, scanEnd: nat)
    requires scanStart <= scanEnd && RoundUp(scanEnd) <= |oldBuf| && RoundUp(scanEnd) <= |newBuf|
    requires RoundUp(scanEnd) <= FB_SIZE
    ensures RegionsFit(newBuf, RoundDown(scanStart), ScanRegions(oldBuf, newBuf, scanStart, scanEnd))
  {
    var s, e := RoundDown(scanStart), RoundUp(scanEnd);
    RoundsOut(scanStart, scanEnd);
    RegionsFitAt(oldBuf[s..], newBuf[s..], e - s, newBuf, s);
  }

  /** All the packets of `encode_diff`. */
  function DiffPackets(c: Config, newFrame: bool, oldBuf: seq<u8>, newBuf: seq<u8>, scanStart: nat, scanEnd: nat)
    : seq<Packet>
    requires scanStart <= scanEnd && RoundUp(scanEnd) <= |oldBuf| && RoundUp(scanEnd) <= |newBuf|
    requires RoundUp(scanEnd) <= FB_SIZE
  {
    ScanRegionsFit(oldBuf, newBuf, scanStart, scanEnd);
    RegionPackets(c, newFrame, newBuf, RoundDown(scanStart), ScanRegions(oldBuf, newBuf, scanStart, scanEnd))
  }

  lemma SegmentPacketIs(c: Config, newFrame: bool, base: nat, buf: seq<u8>, s: Segment, addr: u16, data: seq<u8>)
    requires base + |buf| <= FB_SIZE && Inside(s, |buf|) && addr as int == base + s.off
    requires data == if s.rle then [buf[s.off]] else buf[s.off..s.off + s.len]
    ensures SegmentPacket(c, newFrame, base, buf, s)
         == Packet(InitData(c.flags, newFrame, s.rle, c.bitrev, addr, s.len), data)
  {}

  lemma SegmentPacketGood(c: Config, newFrame: bool, base: nat, buf: seq<u8>, s: Segment)
    requires base + |buf| <= FB_SIZE && Inside(s, |buf|)
    ensures var p := SegmentPacket(c, newFrame, base, buf, s);
            && WellFormed(p) && InBounds(p) && p.hdr.Data? && p.hdr.flags == c.flags
            && PktAddr(p.hdr) == base + s.off && PktLen(p.hdr) == s.len
            && CmdRle(p.hdr.cmd) == s.rle && CmdBitrev(p.hdr.cmd) == c.bitrev
            && CmdNewFrame(p.hdr.cmd) == newFrame && p.hdr.lenLo % 2 == 0
  {
    InitDataFields(c.flags, newFrame, s.rle, c.bitrev, base + s.off, s.len);
  }

  // ---- The encoder itself ----

  /**
   * The outcome of adding `ps` to the packets `before`: all of them were added, or, only when there
   * is no room for all, some first ones.
   */
  ghost predicate Outcome(ok: bool, before: seq<Packet>, after: seq<Packet>, ps: seq<Packet>, room: bool) {
    && (ok <==> ps == [] || room)
    && (if ok then after == before + ps else before <= after < before + ps)
  }

  /** Two emissions in a row. */
  lemma OutcomeThen(before: seq<Packet>, mid: seq<Packet>, after: seq<Packet>, ps: seq<Packet>, qs: seq<Packet>,
                    ok: bool, room1: bool, room2: bool)
    requires Outcome(true, before, mid, ps, room1) && Outcome(ok, mid, after, qs, room2)
    requires qs == [] ==> room1 == room2
    ensures Outcome(ok, before, after, ps + qs, room2)
  {
    assert before + (ps + qs) == before + ps + qs;
    if qs == [] {
      assert ps + qs == ps;
    }
  }

  /** A failed emission ends the encoding. */
  lemma OutcomeFailed(before: seq<Packet>, after: seq<Packet>, ps: seq<Packet>, qs: seq<Packet>, room1: bool, room2: bool)
    requires Outcome(false, before, after, ps, room1)
    requires room2 ==> room1
    ensures Outcome(false, before, after, ps + qs, room2)
  {
    assert before + ps + qs == before + (ps + qs);
  }

  lemma Extends(before: seq<Packet>, ps: seq<Packet>, qs: seq<Packet>)
    ensures before + ps + qs == before + (ps + qs)
    ensures |WireAll(before + ps)| <= |WireAll(before + (ps + qs))|
  {
    assert before + ps + qs == before + (ps + qs);
    WireAllPrefix(before + ps, before + ps + qs);
  }

  /** The packets of the first segment and of the others. */
  lemma FirstSegment(c: Config, newFrame: bool, base: nat, buf: seq<u8>, segs: seq<Segment>)
    returns (ps: seq<Packet>, qs: seq<Packet>)
    requires base + |buf| <= FB_SIZE && AllInside(segs, |buf|) && segs != []
    ensures ps == [SegmentPacket(c, newFrame, base, buf, segs[0])]
    ensures qs == SegmentPackets(c, false, base, buf, segs[1..])
    ensures SegmentPackets(c, newFrame, base, buf, segs) == ps + qs
  {
    ps := [SegmentPacket(c, newFrame, base, buf, segs[0])];
    qs := SegmentPackets(c, false, base, buf, segs[1..]);
  }

  lemma SpansTail(c: Config, newFrame: bool, img: seq<u8>, base: nat, rs: seq<Region>)
    requires RegionsFit(img, base, rs) && rs != []
    ensures RegionsFit(img, base, rs[1..])
    ensures Spans(c, newFrame, img, base, rs)[1..] == Spans(c, false, img, base, rs[1..])
  {}

  /** The packets of the first region and of the others. */
  lemma FirstRegion(c: Config, newFrame: bool, img: seq<u8>, base: nat, rs: seq<Region>)
    returns (ps: seq<Packet>, qs: seq<Packet>)
    requires RegionsFit(img, base, rs) && rs != []
    ensures rs[0].start < rs[0].end && base + rs[0].end <= |img| && base + rs[0].end <= FB_SIZE
    ensures ps == SpanPackets(c, newFrame, base + rs[0].start, img[base + rs[0].start..base + rs[0].end])
    ensures RegionsFit(img, base, rs[1..]) && qs == RegionPackets(c, false, img, base, rs[1..])
    ensures RegionPackets(c, newFrame, img, base, rs) == ps + qs
  {
    ps := SpanPackets(c, newFrame, base + rs[0].start, img[base + rs[0].start..base + rs[0].end]);
    qs := RegionPackets(c, false, img, base, rs[1..]);
    SpansTail(c, newFrame, img, base, rs);
  }

  class EncoderState {
    var addr: u16
    var flags: u8
    var newFrame: bool
    var bitrev: bool
    const sender: Sender

    /** `encoder_init`, with `buf_emit` as the emit callback. */
    constructor (flags: u8, newFrame: bool, bitrev: bool, sender: Sender)
      ensures this.addr == 0 && this.flags == flags && this.newFrame == newFrame
      ensures this.bitrev == bitrev && this.sender == sender
    {
      this.addr, this.flags, this.newFrame, this.bitrev := 0, flags, newFrame, bitrev;
      this.sender := sender;
    }

    ghost function Cfg(): Config
      reads this
    {
      Config(flags, bitrev)
    }

    /** `emit_packet` */
    method EmitPacket(rle: bool, data: seq<u8>, len: u16) returns (ok: bool)
      requires sender.Valid() && |data| == (if rle then 1 else len)
      modifies this`addr, this`newFrame, sender`bufLen, sender`packets, sender.buf
      ensures sender.Valid()
      ensures var p := Packet(InitData(flags, old(newFrame), rle, bitrev, old(addr), len), data);
              && (ok <==> InBounds(p) && sender.Room(old(sender.packets) + [p]))
              && sender.packets == old(sender.packets) + if ok then [p] else []
      ensures newFrame == (old(newFrame) && !ok)
      ensures addr == if ok then (old(addr) + len) % 0x1_0000 else old(addr)
    {
      var p := Packet(InitData(flags, newFrame, rle, bitrev, addr, len), data);
      ok := sender.BufEmit(p);
      if !ok {
        return;
      }
      newFrame := false;
      addr := (addr as int + len) % 0x1_0000;
    }

    /** `rle_emit_cb`, which ignores the offset of the segment and trusts the running address. */
    method RleEmit(s: Segment, base: u16, buf: seq<u8>) returns (ok: bool)
      requires sender.Valid() && base as int + |buf| <= FB_SIZE && Inside(s, |buf|)
      requires addr as int == base as int + s.off
      modifies this`addr, this`newFrame, sender`bufLen, sender`packets, sender.buf
      ensures sender.Valid()
      ensures var p := SegmentPacket(Cfg(), old(newFrame), base, buf, s);
              && (ok <==> sender.Room(old(sender.packets) + [p]))
              && sender.packets == old(sender.packets) + if ok then [p] else []
      ensures ok ==> !newFrame && addr as int == base as int + s.off + s.len
    {
      var data := if s.rle then [buf[s.off]] else buf[s.off..s.off + s.len];
      ghost var p := SegmentPacket(Cfg(), newFrame, base, buf, s);
      assert InBounds(p) by {
        SegmentPacketGood(Cfg(), newFrame, base, buf, s);
      }
      assert p == Packet(InitData(flags, newFrame, s.rle, bitrev, addr, s.len), data) by {
        SegmentPacketIs(Cfg(), newFrame, base, buf, s, addr, data);
      }
      ok := EmitPacket(s.rle, data, s.len);
    }

    /** The calls of `find_rle` back to `rle_emit_cb`, one after the other. */
    method EmitSegments(segs: seq<Segment>, base: u16, buf: seq<u8>) returns (ok: bool)
      requires sender.Valid() && base <= addr && base as int + |buf| <= FB_SIZE
      requires Partition(segs, addr as int - base as int, |buf|) && AllInside(segs, |buf|)
      modifies this`addr, this`newFrame, sender`bufLen, sender`packets, sender.buf
      ensures sender.Valid()
      ensures var ps := SegmentPackets(Cfg(), old(newFrame), base, buf, segs);
              Outcome(ok, old(sender.packets), sender.packets, ps, sender.Room(old(sender.packets) + ps))
      ensures ok ==> newFrame == (old(newFrame) && segs == [])
      decreases |segs|
    {
      ghost var before := sender.packets;
      if segs == [] {
        return true;
      }
      ghost var ps, qs := FirstSegment(Cfg(), newFrame, base, buf, segs);
      Extends(before, ps, qs);
      ok := RleEmit(segs[0], base, buf);
      if !ok {
        OutcomeFailed(before, sender.packets, ps, qs, sender.Room(before + ps), sender.Room(before + (ps + qs)));
        return;
      }
      ghost var mid := sender.packets;
      ok := EmitSegments(segs[1..], base, buf);
      OutcomeThen(before, mid, sender.packets, ps, qs, ok, sender.Room(before + ps), sender.Room(mid + qs));
    }

    /** `encode_region`; `buf` is the region's part of the image. */
    method EncodeRegion(addr: u16, buf: seq<u8>) returns (ok: bool)
      requires sender.Valid()
      modifies this`addr, this`newFrame, sender`bufLen, sender`packets, sender.buf
      ensures sender.Valid()
      ensures addr as int + |buf| > FB_SIZE ==>
                !ok && sender.packets == old(sender.packets) && newFrame == old(newFrame)
      ensures addr as int + |buf| <= FB_SIZE ==>
                var ps := SpanPackets(Cfg(), old(newFrame), addr, buf);
                && Outcome(ok, old(sender.packets), sender.packets, ps, sender.Room(old(sender.packets) + ps))
                && (ok ==> newFrame == (old(newFrame) && ps == []))
    {
      if addr as int + |buf| > FB_SIZE {
        return false;
      }
      this.addr := addr;
      // The callback writes nothing that the scanner reads, so its calls are made after the scan.
      var always: nat -> bool := _ => true;
      var found, segs := FindRle(buf, RLE_MIN_RUN, always);
      NeverRefused(found, segs, Segments(buf, RLE_MIN_RUN), always);
      SegmentsInside(buf, RLE_MIN_RUN);
      SplitIsPartition(buf, RLE_MIN_RUN, 0, 0);
      ok := EmitSegments(segs, addr, buf);
    }

    /** `diff_emit_cb` */
    method DiffEmit(newBuf: seq<u8>, base: nat, r: Region) returns (ok: bool)
      requires sender.Valid() && r.start < r.end && base + r.end <= |newBuf|
      modifies this`addr, this`newFrame, sender`bufLen, sender`packets, sender.buf
      ensures sender.Valid()
      ensures base + r.end > FB_SIZE ==>
                !ok && sender.packets == old(sender.packets) && newFrame == old(newFrame)
      ensures base + r.end <= FB_SIZE ==>
                var ps := SpanPackets(Cfg(), old(newFrame), base + r.start, newBuf[base + r.start..base + r.end]);
                && Outcome(ok, old(sender.packets), sender.packets, ps, sender.Room(old(sender.packets) + ps))
                && (ok ==> !newFrame)
    {
      var absStart, absEnd := base + r.start, base + r.end;
      var len := absEnd - absStart;
      if absStart > 0xFFFF || absEnd > FB_SIZE || absStart + len > FB_SIZE {
        return false;
      }
      ok := EncodeRegion(absStart, newBuf[absStart..absStart + len]);
    }

    /** `diff_emit_cb` for a region inside the framebuffer, whose packets are `ps`. */
    method EmitRegion(newBuf: seq<u8>, base: nat, r: Region, ghost ps: seq<Packet>) returns (ok: bool)
      requires sender.Valid() && r.start < r.end && base + r.end <= |newBuf| && base + r.end <= FB_SIZE
      requires ps == SpanPackets(Cfg(), newFrame, base + r.start, newBuf[base + r.start..base + r.end])
      modifies this`addr, this`newFrame, sender`bufLen, sender`packets, sender.buf
      ensures sender.Valid()
      ensures Outcome(ok, old(sender.packets), sender.packets, ps, sender.Room(old(sender.packets) + ps))
      ensures ok ==> !newFrame
    {
      ok := DiffEmit(newBuf, base, r);
    }

    /** `diff_emit_cb` for the first region; `ps` are its packets, `qs` those of the others. */
    method EmitFirst(newBuf: seq<u8>, base: nat, rs: seq<Region>)
      returns (ok: bool, ghost ps: seq<Packet>, ghost qs: seq<Packet>)
      requires sender.Valid() && RegionsFit(newBuf, base, rs) && rs != []
      modifies this`addr, this`newFrame, sender`bufLen, sender`packets, sender.buf
      ensures sender.Valid() && RegionsFit(newBuf, base, rs[1..])
      ensures RegionPackets(Cfg(), old(newFrame), newBuf, base, rs) == ps + qs
      ensures qs == RegionPackets(Cfg(), false, newBuf, base, rs[1..])
      ensures Outcome(ok, old(sender.packets), sender.packets, ps, sender.Room(old(sender.packets) + ps))
      ensures ok ==> !newFrame
    {
      ps, qs := FirstRegion(Cfg(), newFrame, newBuf, base, rs);
      ok := EmitRegion(newBuf, base, rs[0], ps);
    }

    /** The calls of `find_diffs` back to `diff_emit_cb`, one after the other. */
    method EmitRegions(newBuf: seq<u8>, base: nat, rs: seq<Region>, ghost all: seq<Packet>) returns (ok: bool)
      requires sender.Valid() && RegionsFit(newBuf, base, rs)
      requires all == RegionPackets(Cfg(), newFrame, newBuf, base, rs)
      modifies this`addr, this`newFrame, sender`bufLen, sender`packets, sender.buf
      ensures sender.Valid()
      ensures Outcome(ok, old(sender.packets), sender.packets, all, sender.Room(old(sender.packets) + all))
      decreases |rs|
    {
      ghost var before := sender.packets;
      if rs == [] {
        return true;
      }
      ghost var ps, qs;
      ok, ps, qs := EmitFirst(newBuf, base, rs);
      Extends(before, ps, qs);
      if !ok {
        OutcomeFailed(before, sender.packets, ps, qs, sender.Room(before + ps), sender.Room(before + all));
        return;
      }
      ghost var mid := sender.packets;
      ok := EmitRegions(newBuf, base, rs[1..], qs);
      OutcomeThen(before, mid, sender.packets, ps, qs, ok, sender.Room(before + ps), sender.Room(mid + qs));
    }

    /** `encode_diff` */
    method EncodeDiff(oldBuf: seq<u8>, newBuf: seq<u8>, scanStart: nat, scanEnd: nat) returns (ok: bool)
      requires sender.Valid()
      requires scanStart <= scanEnd && RoundUp(scanEnd) <= |oldBuf| && RoundUp(scanEnd) <= |newBuf|
      requires RoundUp(scanEnd) <= FB_SIZE
      modifies this`addr, this`newFrame, sender`bufLen, sender`packets, sender.buf
      ensures sender.Valid()
      ensures var ps := DiffPackets(Cfg(), old(newFrame), oldBuf, newBuf, scanStart, scanEnd);
              Outcome(ok, old(sender.packets), sender.packets, ps, sender.Room(old(sender.packets) + ps))
    {
      var base, end := RoundDown(scanStart), RoundUp(scanEnd);
      var always: nat -> bool := _ => true;
      // As in encode_region, the calls back are made after the scan.
      var found, rs := FindDiffs(oldBuf[base..], newBuf[base..], end - base, HDR_SIZE_DATA, always);
      NeverRefused(found, rs, ScanRegions(oldBuf, newBuf, scanStart, scanEnd), always);
      ScanRegionsFit(oldBuf, newBuf, scanStart, scanEnd);
      ok := EmitRegions(newBuf, base, rs, DiffPackets(Cfg(), newFrame, oldBuf, newBuf, scanStart, scanEnd));
    }
  }
}
