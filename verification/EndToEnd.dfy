/**
 * What the encoder's packets mean: to the reference decoder of kmod/tests.c and, byte by byte, to
 * the command interpreter of fpga/priveye.v and the display behind it.
 */
module EndToEnd {
  import opened Bytes
  import opened Packets
  import opened SendBuffer
  import opened DiffScan
  import opened RleScan
  import opened Encoder
  import opened CommandFsm

  /** A data packet such as the driver emits. */
  ghost predicate DriverPacket(p: Packet) {
    ProperData(p) && InBounds(p)
  }

  ghost predicate AllDriver(ps: seq<Packet>) {
    forall k | 0 <= k < |ps| :: DriverPacket(ps[k])
  }

  // ---- The two decoders agree ----

  /**
   * Fed byte by byte to the FPGA, driver packets leave the display memory as the reference decoder
   * leaves its framebuffer, whatever modes, address and flags the device had before, and leave the
   * interpreter waiting for a command.
   */
  lemma {:induction false} DecodersAgree(d: Device, ps: seq<Packet>)
    requires d.fsm.op.CodeLow? && |d.display.mem| >= FB_SIZE
    requires AllDriver(ps)
    ensures var d' := Feed(d, WireAll(ps));
            && d'.fsm.op.CodeLow?
            && d'.display.mem == ApplyAll(d.display.mem, ps)
            && d'.display.flags == if ps == [] then d.display.flags else ps[|ps| - 1].hdr.flags
    decreases |ps|
  {
    if ps != [] {
      FeedConcat(d, Wire(ps[0]), WireAll(ps[1..]));
      DataPacket(d, ps[0]);
      var d1 := Feed(d, Wire(ps[0]));
      assert d1.display.mem == Apply(d.display.mem, ps[0]);
      DecodersAgree(d1, ps[1..]);
    }
  }

  // ---- What the packets of an encoding have in common ----

  /** A driver packet with the encoder's settings, whose expanded payload is the image at its address. */
  ghost predicate Draws(c: Config, newFrame: bool, img: seq<u8>, p: Packet) {
    && DriverPacket(p)
    && p.hdr.flags == c.flags && CmdBitrev(p.hdr.cmd) == c.bitrev && CmdNewFrame(p.hdr.cmd) == newFrame
    && End(p) <= |img| && Expand(p) == img[PktAddr(p.hdr)..End(p)]
  }

  /** One past the last address of a data packet. */
  function End(p: Packet): nat
    requires p.hdr.Data?
  {
    PktAddr(p.hdr) + PktLen(p.hdr)
  }

  /**
   * Packets that draw parts of the image, at increasing addresses from `lo` on, not overlapping,
   * not empty and ending by `hi`; only the first can carry the new-frame flag.
   */
  ghost predicate DrawsAll(c: Config, newFrame: bool, img: seq<u8>, lo: nat, ps: seq<Packet>, hi: nat)
    decreases |ps|
  {
    if ps == [] then lo <= hi
    else
      && Draws(c, newFrame, img, ps[0]) && lo <= PktAddr(ps[0].hdr)
      && DrawsAll(c, false, img, End(ps[0]), ps[1..], hi)
  }

  /** Some packet writes address `i`. */
  ghost predicate Hits(ps: seq<Packet>, i: nat)
    decreases |ps|
  {
    ps != [] && ((ps[0].hdr.Data? && PktAddr(ps[0].hdr) <= i < End(ps[0])) || Hits(ps[1..], i))
  }

  /** The packets write every address in `lo..hi`. */
  ghost predicate HitsAll(ps: seq<Packet>, lo: nat, hi: nat) {
    forall i | lo <= i < hi :: Hits(ps, i)
  }

  lemma {:induction false} DrawsBound(c: Config, newFrame: bool, img: seq<u8>, lo: nat, ps: seq<Packet>, hi: nat)
    requires DrawsAll(c, newFrame, img, lo, ps, hi)
    ensures lo <= hi
    ensures forall i: nat | Hits(ps, i) :: lo <= i < hi
    decreases |ps|
  {
    if ps != [] {
      DrawsBound(c, false, img, End(ps[0]), ps[1..], hi);
    }
  }

  lemma {:induction false} DrawsConcat(c: Config, newFrame: bool, img: seq<u8>, lo: nat, ps: seq<Packet>, mid: nat, qs: seq<Packet>, hi: nat)
    requires DrawsAll(c, newFrame, img, lo, ps, mid) && DrawsAll(c, newFrame && ps == [], img, mid, qs, hi)
    ensures DrawsAll(c, newFrame, img, lo, ps + qs, hi)
    ensures forall i: nat :: Hits(ps + qs, i) <==> Hits(ps, i) || Hits(qs, i)
    decreases |ps|
  {
    if ps == [] {
      assert ps + qs == qs;
      if qs != [] {
        DrawsBound(c, newFrame, img, mid, qs, hi);
      }
    } else {
      assert (ps + qs)[1..] == ps[1..] + qs && (ps + qs)[0] == ps[0];
      DrawsConcat(c, false, img, End(ps[0]), ps[1..], mid, qs, hi);
    }
  }

  lemma DrawsFrom(c: Config, newFrame: bool, img: seq<u8>, lo: nat, lo': nat, ps: seq<Packet>, hi: nat)
    requires DrawsAll(c, newFrame, img, lo, ps, hi) && lo' <= lo
    ensures DrawsAll(c, newFrame, img, lo', ps, hi)
  {}

  // ---- The packets of one span ----

  /** Repeated segments are constant. */
  ghost predicate Faithful(buf: seq<u8>, s: Segment) {
    Inside(s, |buf|) && (s.rle ==> Constant(buf, s.off, s.off + s.len))
  }

  ghost predicate AllFaithful(buf: seq<u8>, segs: seq<Segment>) {
    forall k | 0 <= k < |segs| :: Faithful(buf, segs[k])
  }

  lemma SegmentsFaithful(buf: seq<u8>, minRun: nat)
    ensures AllFaithful(buf, Segments(buf, minRun)) && AllInside(Segments(buf, minRun), |buf|)
  {
    var segs := Segments(buf, minRun);
    SegmentsInside(buf, minRun);
    forall k | 0 <= k < |segs|
      ensures Faithful(buf, segs[k])
    {
      var s := segs[k];
      var e := s.off + s.len;
      if s.rle {
        assert Segment(s.off, e - s.off, true) in segs;
        SplitKeeps(buf, minRun, 0, 0, s.off, e);
      }
    }
  }

  /** `buf` is the part of the image at `base`. */
  ghost predicate PartOf(buf: seq<u8>, img: seq<u8>, base: nat) {
    base + |buf| <= |img| && base + |buf| <= FB_SIZE && buf == img[base..base + |buf|]
  }

  /** The packet draws exactly the segment, whose offset counts from `base`. */
  ghost predicate DrawsSegment(c: Config, newFrame: bool, img: seq<u8>, base: nat, s: Segment, p: Packet) {
    && Draws(c, newFrame, img, p)
    && PktAddr(p.hdr) == base + s.off && End(p) == base + s.off + s.len
  }

  lemma SegmentDraws(c: Config, newFrame: bool, base: nat, buf: seq<u8>, s: Segment, img: seq<u8>)
    requires PartOf(buf, img, base) && Faithful(buf, s)
    ensures DrawsSegment(c, newFrame, img, base, s, SegmentPacket(c, newFrame, base, buf, s))
  {
    var p := SegmentPacket(c, newFrame, base, buf, s);
    SegmentPacketGood(c, newFrame, base, buf, s);
    assert p.hdr.cmd % 2 == 1;
    assert Expand(p) == buf[s.off..s.off + s.len];
    SubPart(img, base, |buf|, s.off, s.len);
  }

  lemma SubPart(img: seq<u8>, base: nat, n: nat, off: nat, len: nat)
    requires base + n <= |img| && off + len <= n
    ensures img[base..base + n][off..off + len] == img[base + off..base + off + len]
  {
    var part := img[base..base + n];
    assert forall i | off <= i < off + len :: part[i] == img[base + i];
  }

  /** Packet `k` draws segment `k`. */
  ghost predicate DrawsSegments(c: Config, newFrame: bool, img: seq<u8>, base: nat, segs: seq<Segment>, ps: seq<Packet>) {
    && |ps| == |segs|
    && forall k | 0 <= k < |ps| :: DrawsSegment(c, newFrame && k == 0, img, base, segs[k], ps[k])
  }

  lemma DrawsSegmentsTail(c: Config, newFrame: bool, img: seq<u8>, base: nat, segs: seq<Segment>, ps: seq<Packet>)
    requires DrawsSegments(c, newFrame, img, base, segs, ps) && ps != []
    ensures DrawsSegments(c, false, img, base, segs[1..], ps[1..])
  {
    assert forall k | 0 <= k < |ps[1..]| :: ps[1..][k] == ps[k + 1] && segs[1..][k] == segs[k + 1];
  }

  /** Packets that draw the segments of a partition draw all of the partitioned range. */
  lemma {:induction false} PartitionDraws(c: Config, newFrame: bool, img: seq<u8>, base: nat, segs: seq<Segment>, ps: seq<Packet>, lo: nat, hi: nat)
    requires Partition(segs, lo, hi) && DrawsSegments(c, newFrame, img, base, segs, ps)
    ensures DrawsAll(c, newFrame, img, base + lo, ps, base + hi) && HitsAll(ps, base + lo, base + hi)
    decreases |ps|
  {
    if ps != [] {
      DrawsSegmentsTail(c, newFrame, img, base, segs, ps);
      PartitionDraws(c, false, img, base, segs[1..], ps[1..], lo + segs[0].len, hi);
      assert DrawsSegment(c, newFrame, img, base, segs[0], ps[0]);
    }
  }

  lemma SegmentsDraw(c: Config, newFrame: bool, base: nat, buf: seq<u8>, segs: seq<Segment>, img: seq<u8>)
    requires PartOf(buf, img, base) && AllFaithful(buf, segs) && AllInside(segs, |buf|)
    ensures DrawsSegments(c, newFrame, img, base, segs, SegmentPackets(c, newFrame, base, buf, segs))
  {
    var ps := SegmentPackets(c, newFrame, base, buf, segs);
    forall k | 0 <= k < |ps|
      ensures DrawsSegment(c, newFrame && k == 0, img, base, segs[k], ps[k])
    {
      SegmentDraws(c, newFrame && k == 0, base, buf, segs[k], img);
    }
  }

  /** The packets of a span draw all of it and nothing else. */
  lemma SpanDraws(c: Config, newFrame: bool, base: nat, buf: seq<u8>, img: seq<u8>)
    requires PartOf(buf, img, base)
    ensures var ps := SpanPackets(c, newFrame, base, buf);
            DrawsAll(c, newFrame, img, base, ps, base + |buf|) && HitsAll(ps, base, base + |buf|)
  {
    var segs := Segments(buf, RLE_MIN_RUN);
    SegmentsFaithful(buf, RLE_MIN_RUN);
    SplitIsPartition(buf, RLE_MIN_RUN, 0, 0);
    SegmentsDraw(c, newFrame, base, buf, segs, img);
    PartitionDraws(c, newFrame, img, base, segs, SegmentPackets(c, newFrame, base, buf, segs), 0, |buf|);
  }

  // ---- The packets of a whole difference ----

  /** The packets write every byte of the regions, shifted by `base`. */
  ghost predicate HitsRegions(ps: seq<Packet>, rs: seq<Region>, base: nat) {
    forall i: nat | Covered(rs, i) :: Hits(ps, base + i)
  }

  /** The packets draw all of the region and nothing else. */
  ghost predicate DrawsRegion(c: Config, newFrame: bool, img: seq<u8>, base: nat, r: Region, ps: seq<Packet>) {
    && ps != [] && r.start < r.end
    && DrawsAll(c, newFrame, img, base + r.start, ps, base + r.end)
    && HitsAll(ps, base + r.start, base + r.end)
  }

  /** The packets `pss[k]` draw region `k`. */
  ghost predicate DrawsRegions(c: Config, newFrame: bool, img: seq<u8>, base: nat, rs: seq<Region>, pss: seq<seq<Packet>>) {
    && |pss| == |rs|
    && forall k | 0 <= k < |pss| :: DrawsRegion(c, newFrame && k == 0, img, base, rs[k], pss[k])
  }

  lemma DrawsRegionsTail(c: Config, newFrame: bool, img: seq<u8>, base: nat, rs: seq<Region>, pss: seq<seq<Packet>>)
    requires DrawsRegions(c, newFrame, img, base, rs, pss) && rs != []
    ensures DrawsRegion(c, newFrame, img, base, rs[0], pss[0])
    ensures DrawsRegions(c, false, img, base, rs[1..], pss[1..])
  {
    assert forall k | 0 <= k < |pss[1..]| :: pss[1..][k] == pss[k + 1] && rs[1..][k] == rs[k + 1];
  }

  lemma RegionsStep(c: Config, newFrame: bool, img: seq<u8>, base: nat, rs: seq<Region>, lo: nat, hi: nat, ps: seq<Packet>, qs: seq<Packet>)
    requires rs != [] && lo <= base + rs[0].start && DrawsRegion(c, newFrame, img, base, rs[0], ps)
    requires DrawsAll(c, false, img, base + rs[0].end, qs, hi) && HitsRegions(qs, rs[1..], base)
    ensures DrawsAll(c, newFrame, img, lo, ps + qs, hi) && HitsRegions(ps + qs, rs, base)
  {
    DrawsFrom(c, newFrame, img, base + rs[0].start, lo, ps, base + rs[0].end);
    DrawsConcat(c, newFrame, img, lo, ps, base + rs[0].end, qs, hi);
    forall i: nat | Covered(rs, i)
      ensures Hits(ps + qs, base + i)
    {
      CoveredTail(rs, i);
    }
  }

  lemma {:induction false} FlattenDraws(c: Config, newFrame: bool, img: seq<u8>, base: nat, rs: seq<Region>, pss: seq<seq<Packet>>, lo: nat, hi: nat)
    requires DrawsRegions(c, newFrame, img, base, rs, pss) && Spaced(HDR_SIZE_DATA, rs)
    requires forall k | 0 <= k < |rs| :: rs[k].start < rs[k].end
    requires lo <= hi && (rs != [] ==> lo <= base + rs[0].start && base + rs[|rs| - 1].end <= hi)
    ensures DrawsAll(c, newFrame, img, lo, Flatten(pss), hi) && HitsRegions(Flatten(pss), rs, base)
    decreases |rs|
  {
    if rs != [] {
      DrawsRegionsTail(c, newFrame, img, base, rs, pss);
      SpacedTail(HDR_SIZE_DATA, rs);
      FlattenDraws(c, false, img, base, rs[1..], pss[1..], base + rs[0].end, hi);
      RegionsStep(c, newFrame, img, base, rs, lo, hi, pss[0], Flatten(pss[1..]));
    }
  }

  lemma RegionDraws(c: Config, newFrame: bool, img: seq<u8>, base: nat, r: Region, ps: seq<Packet>)
    requires r.start < r.end && base + r.end <= |img| && base + r.end <= FB_SIZE
    requires ps == SpanPackets(c, newFrame, base + r.start, img[base + r.start..base + r.end])
    ensures DrawsRegion(c, newFrame, img, base, r, ps)
  {
    var buf := img[base + r.start..base + r.end];
    SpanDraws(c, newFrame, base + r.start, buf, img);
    assert base + r.start + |buf| == base + r.end;
  }

  lemma RegionsDraw(c: Config, newFrame: bool, img: seq<u8>, base: nat, rs: seq<Region>)
    requires RegionsFit(img, base, rs)
    ensures DrawsRegions(c, newFrame, img, base, rs, Spans(c, newFrame, img, base, rs))
  {
    var pss := Spans(c, newFrame, img, base, rs);
    forall k | 0 <= k < |rs|
      ensures DrawsRegion(c, newFrame && k == 0, img, base, rs[k], pss[k])
    {
      RegionDraws(c, newFrame && k == 0, img, base, rs[k], pss[k]);
    }
  }

  lemma CoveredTail(rs: seq<Region>, i: nat)
    requires Covered(rs, i)
    ensures rs != [] && (rs[0].start <= i < rs[0].end || Covered(rs[1..], i))
  {
    var k :| 0 <= k < |rs| && rs[k].start <= i < rs[k].end;
    if k > 0 {
      assert rs[1..][k - 1] == rs[k];
    }
  }

  lemma SpacedTail(gap: nat, rs: seq<Region>)
    requires Spaced(gap, rs) && rs != [] && forall k | 0 <= k < |rs| :: rs[k].start < rs[k].end
    ensures Spaced(gap, rs[1..])
    ensures |rs| > 1 ==> rs[0].end <= rs[1..][0].start && rs[1..][|rs| - 2] == rs[|rs| - 1]
    ensures rs[0].end <= rs[|rs| - 1].end
  {
    assert forall k | 0 < k < |rs[1..]| :: rs[1..][k - 1] == rs[k] && rs[1..][k] == rs[k + 1];
    SpacedEnds(gap, rs, 0);
  }

  lemma {:induction false} SpacedEnds(gap: nat, rs: seq<Region>, k: nat)
    requires Spaced(gap, rs) && (forall k | 0 <= k < |rs| :: rs[k].start < rs[k].end) && k < |rs|
    ensures rs[k].end <= rs[|rs| - 1].end
    decreases |rs| - k
  {
    if k + 1 < |rs| {
      SpacedEnds(gap, rs, k + 1);
    }
  }

  /**
   * Packets that turn one image into another between `s` and `e`: they draw parts of the new image
   * there, in order, not overlapping and not empty; they write every byte that changed; only the
   * first can carry the new-frame flag; and there are none exactly when nothing changed.
   */
  ghost predicate Converts(c: Config, newFrame: bool, oldBuf: seq<u8>, newBuf: seq<u8>, s: nat, e: nat, ps: seq<Packet>)
    requires e <= |oldBuf| && e <= |newBuf|
  {
    && DrawsAll(c, newFrame, newBuf, s, ps, e)
    && (forall i | s <= i < e && oldBuf[i] != newBuf[i] :: Hits(ps, i))
    && (ps == [] <==> forall i | s <= i < e :: oldBuf[i] == newBuf[i])
  }

  /** The regions found between `s` and `e`, counted from `s`, in terms of the whole buffers. */
  ghost predicate FoundRegions(oldBuf: seq<u8>, newBuf: seq<u8>, s: nat, e: nat, rs: seq<Region>)
    requires e <= |oldBuf| && e <= |newBuf|
  {
    && (forall k | 0 <= k < |rs| :: rs[k].start < rs[k].end <= e - s)
    && (forall q | 0 <= q < e - s && oldBuf[s + q] != newBuf[s + q] :: Covered(rs, q))
    && (rs != [] ==> s + rs[0].start < e && oldBuf[s + rs[0].start] != newBuf[s + rs[0].start])
    && Spaced(HDR_SIZE_DATA, rs)
  }

  lemma RegionsFound(oldBuf: seq<u8>, newBuf: seq<u8>, s: nat, e: nat, rs: seq<Region>)
    requires s <= e <= |oldBuf| && e <= |newBuf| && (e - s) % 8 == 0
    requires rs == Regions(oldBuf[s..], newBuf[s..], e - s, HDR_SIZE_DATA)
    ensures FoundRegions(oldBuf, newBuf, s, e, rs)
  {
    WholeRegions(oldBuf[s..], newBuf[s..], e - s, HDR_SIZE_DATA);
    Dropped(oldBuf, newBuf, s, e, rs);
  }

  lemma ScanRegionsFound(oldBuf: seq<u8>, newBuf: seq<u8>, scanStart: nat, scanEnd: nat)
    requires scanStart <= scanEnd && RoundUp(scanEnd) <= |oldBuf| && RoundUp(scanEnd) <= |newBuf|
    ensures FoundRegions(oldBuf, newBuf, RoundDown(scanStart), RoundUp(scanEnd),
                         ScanRegions(oldBuf, newBuf, scanStart, scanEnd))
  {
    WholeWords(scanStart / 8, (scanEnd + 7) / 8);
    RegionsFound(oldBuf, newBuf, RoundDown(scanStart), RoundUp(scanEnd),
                 ScanRegions(oldBuf, newBuf, scanStart, scanEnd));
  }

  lemma WholeWords(i: nat, j: nat)
    requires i <= j
    ensures i * 8 <= j * 8 && (j * 8 - i * 8) % 8 == 0
  {}

  lemma Dropped(oldBuf: seq<u8>, newBuf: seq<u8>, s: nat, e: nat, rs: seq<Region>)
    requires s <= e <= |oldBuf| && e <= |newBuf| && Spaced(HDR_SIZE_DATA, rs)
    requires Tight(oldBuf[s..], newBuf[s..], e - s, rs)
    requires forall q | 0 <= q < e - s && oldBuf[s..][q] != newBuf[s..][q] :: Covered(rs, q)
    ensures FoundRegions(oldBuf, newBuf, s, e, rs)
  {
    var a, b := oldBuf[s..], newBuf[s..];
    assert forall q | 0 <= q < e - s :: oldBuf[s + q] == a[q] && newBuf[s + q] == b[q];
  }

  lemma FoundConverts(c: Config, newFrame: bool, oldBuf: seq<u8>, newBuf: seq<u8>, s: nat, e: nat, rs: seq<Region>, pss: seq<seq<Packet>>)
    requires s <= e <= |oldBuf| && e <= |newBuf| && FoundRegions(oldBuf, newBuf, s, e, rs)
    requires DrawsRegions(c, newFrame, newBuf, s, rs, pss)
    ensures Converts(c, newFrame, oldBuf, newBuf, s, e, Flatten(pss))
  {
    var ps := Flatten(pss);
    FlattenDraws(c, newFrame, newBuf, s, rs, pss, s, e);
    forall i | s <= i < e && oldBuf[i] != newBuf[i]
      ensures Hits(ps, i)
    {
      assert Covered(rs, i - s) && s + (i - s) == i;
    }
    if rs == [] {
      assert forall q :: !Covered(rs, q);
      assert forall i | s <= i < e :: oldBuf[i] == oldBuf[s + (i - s)] && newBuf[i] == newBuf[s + (i - s)];
    } else {
      assert Hits(ps, s + rs[0].start);
    }
  }

  /** The packets of `encode_diff` convert the old image into the new one on the scanned range. */
  lemma DiffConverts(c: Config, newFrame: bool, oldBuf: seq<u8>, newBuf: seq<u8>, scanStart: nat, scanEnd: nat)
    requires scanStart <= scanEnd && RoundUp(scanEnd) <= |oldBuf| && RoundUp(scanEnd) <= |newBuf|
    requires RoundUp(scanEnd) <= FB_SIZE
    ensures Converts(c, newFrame, oldBuf, newBuf, RoundDown(scanStart), RoundUp(scanEnd),
                     DiffPackets(c, newFrame, oldBuf, newBuf, scanStart, scanEnd))
  {
    var s, e := RoundDown(scanStart), RoundUp(scanEnd);
    var rs := ScanRegions(oldBuf, newBuf, scanStart, scanEnd);
    ScanRegionsFit(oldBuf, newBuf, scanStart, scanEnd);
    ScanRegionsFound(oldBuf, newBuf, scanStart, scanEnd);
    RegionsDraw(c, newFrame, newBuf, s, rs);
    FoundConverts(c, newFrame, oldBuf, newBuf, s, e, rs, Spans(c, newFrame, newBuf, s, rs));
  }

  /** Packets that draw an image leave it where they hit and the old contents elsewhere. */
  lemma {:induction false} ApplyDraws(c: Config, newFrame: bool, img: seq<u8>, lo: nat, ps: seq<Packet>, hi: nat, fb: seq<u8>)
    requires DrawsAll(c, newFrame, img, lo, ps, hi) && FB_SIZE <= |fb|
    ensures AllDriver(ps)
    ensures forall i | 0 <= i < |fb| ::
              ApplyAll(fb, ps)[i] == if Hits(ps, i) && i < |img| then Flip(c.bitrev, img[i]) else fb[i]
    decreases |ps|
  {
    if ps != [] {
      var p := ps[0];
      ApplyDraws(c, false, img, End(p), ps[1..], hi, Apply(fb, p));
      ApplyOne(c, newFrame, img, p, fb);
      DrawsBound(c, false, img, End(p), ps[1..], hi);
      assert forall k | 0 < k < |ps| :: ps[k] == ps[1..][k - 1];
    }
  }

  lemma ApplyOne(c: Config, newFrame: bool, img: seq<u8>, p: Packet, fb: seq<u8>)
    requires Draws(c, newFrame, img, p) && FB_SIZE <= |fb|
    ensures forall i | 0 <= i < |fb| ::
              Apply(fb, p)[i] == if PktAddr(p.hdr) <= i < End(p) then Flip(c.bitrev, img[i]) else fb[i]
  {}

  /**
   * Applied to a framebuffer that agrees with the old image on a range, packets that convert the
   * range make it agree with the new image there and change nothing elsewhere.
   */
  lemma ConvertsUpdates(c: Config, newFrame: bool, oldBuf: seq<u8>, newBuf: seq<u8>, s: nat, e: nat, ps: seq<Packet>, fb: seq<u8>)
    requires e <= |oldBuf| && e <= |newBuf| && e <= FB_SIZE <= |fb|
    requires Converts(c, newFrame, oldBuf, newBuf, s, e, ps)
    requires forall i | s <= i < e :: fb[i] == Flip(c.bitrev, oldBuf[i])
    ensures AllDriver(ps)
    ensures forall i | 0 <= i < |fb| ::
              ApplyAll(fb, ps)[i] == if s <= i < e then Flip(c.bitrev, newBuf[i]) else fb[i]
  {
    ApplyDraws(c, newFrame, newBuf, s, ps, e, fb);
    DrawsBound(c, newFrame, newBuf, s, ps, e);
  }

  lemma WholeWordsConvert(c: Config, newFrame: bool, oldBuf: seq<u8>, newBuf: seq<u8>, lo: nat, hi: nat, ps: seq<Packet>)
    requires lo == 0 && hi % 8 == 0 && hi <= |oldBuf| && hi <= |newBuf| && hi <= FB_SIZE
    requires RoundUp(hi) == hi && ps == DiffPackets(c, newFrame, oldBuf, newBuf, lo, hi)
    ensures Converts(c, newFrame, oldBuf, newBuf, lo, hi, ps)
  {
    DiffConverts(c, newFrame, oldBuf, newBuf, lo, hi);
  }

  lemma FrameConverts(c: Config, newFrame: bool, oldBuf: seq<u8>, newBuf: seq<u8>, ps: seq<Packet>)
    requires |oldBuf| == FB_SIZE && |newBuf| == FB_SIZE
    requires ps == DiffPackets(c, newFrame, oldBuf, newBuf, 0, FB_SIZE)
    ensures Converts(c, newFrame, oldBuf, newBuf, 0, FB_SIZE, ps)
  {
    WholeWordsConvert(c, newFrame, oldBuf, newBuf, 0, FB_SIZE, ps);
  }

  /**
   * Round trip: the packets of a whole-frame difference turn the old frame into the new one, each as
   * the display sees it: bit-reversed if the encoder marks its packets so.
   */
  lemma DiffRoundTrip(c: Config, newFrame: bool, oldBuf: seq<u8>, newBuf: seq<u8>, ps: seq<Packet>)
    requires |oldBuf| == FB_SIZE && |newBuf| == FB_SIZE
    requires ps == DiffPackets(c, newFrame, oldBuf, newBuf, 0, FB_SIZE)
    ensures AllDriver(ps) && ApplyAll(View(c.bitrev, oldBuf), ps) == View(c.bitrev, newBuf)
  {
    FrameConverts(c, newFrame, oldBuf, newBuf, ps);
    ConvertsRoundTrip(c, newFrame, oldBuf, newBuf, ps);
  }

  lemma ConvertsRoundTrip(c: Config, newFrame: bool, oldBuf: seq<u8>, newBuf: seq<u8>, ps: seq<Packet>)
    requires |oldBuf| == FB_SIZE && |newBuf| == FB_SIZE
    requires Converts(c, newFrame, oldBuf, newBuf, 0, FB_SIZE, ps)
    ensures AllDriver(ps) && ApplyAll(View(c.bitrev, oldBuf), ps) == View(c.bitrev, newBuf)
  {
    ConvertsUpdates(c, newFrame, oldBuf, newBuf, 0, FB_SIZE, ps, View(c.bitrev, oldBuf));
  }

  /** The list read by index. */
  lemma {:induction false} DrawsAt(c: Config, newFrame: bool, img: seq<u8>, lo: nat, ps: seq<Packet>, hi: nat, k: nat)
    requires DrawsAll(c, newFrame, img, lo, ps, hi) && k < |ps|
    ensures Draws(c, newFrame && k == 0, img, ps[k])
    ensures lo <= PktAddr(ps[k].hdr) && End(ps[k]) <= hi
    ensures k + 1 < |ps| ==> ps[k + 1].hdr.Data? && End(ps[k]) <= PktAddr(ps[k + 1].hdr)
    decreases |ps|
  {
    DrawsBound(c, false, img, End(ps[0]), ps[1..], hi);
    if k > 0 {
      DrawsAt(c, false, img, End(ps[0]), ps[1..], hi, k - 1);
    }
  }

  // ---- The main theorem ----

  /** The display shows `frame`: its memory begins with it, bit-reversed if `rev`. */
  ghost predicate Shows(d: Device, rev: bool, frame: seq<u8>) {
    |frame| <= |d.display.mem| && forall i | 0 <= i < |frame| :: d.display.mem[i] == Flip(rev, frame[i])
  }

  /** Two display memories agree beyond the frame. */
  ghost predicate SameBeyond(d: Device, d': Device, n: nat) {
    && |d.display.mem| == |d'.display.mem|
    && forall i | n <= i < |d.display.mem| :: d'.display.mem[i] == d.display.mem[i]
  }

  lemma ConvertsDrivesDevice(d: Device, c: Config, newFrame: bool, oldBuf: seq<u8>, newBuf: seq<u8>, ps: seq<Packet>)
    requires |oldBuf| == FB_SIZE && |newBuf| == FB_SIZE
    requires d.fsm.op.CodeLow? && Shows(d, c.bitrev, oldBuf)
    requires Converts(c, newFrame, oldBuf, newBuf, 0, FB_SIZE, ps)
    ensures var d' := Feed(d, WireAll(ps));
            && d'.fsm.op.CodeLow? && Shows(d', c.bitrev, newBuf) && SameBeyond(d, d', FB_SIZE)
            && d'.display.flags == if oldBuf == newBuf then d.display.flags else c.flags
  {
    ConvertsUpdates(c, newFrame, oldBuf, newBuf, 0, FB_SIZE, ps, d.display.mem);
    DecodersAgree(d, ps);
    if ps != [] {
      DrawsAt(c, newFrame, newBuf, 0, ps, FB_SIZE, |ps| - 1);
    }
  }

  lemma FrameDrivesDevice(d: Device, c: Config, newFrame: bool, oldBuf: seq<u8>, newBuf: seq<u8>, ps: seq<Packet>)
    requires |oldBuf| == FB_SIZE && |newBuf| == FB_SIZE
    requires d.fsm.op.CodeLow? && Shows(d, c.bitrev, oldBuf)
    requires ps == DiffPackets(c, newFrame, oldBuf, newBuf, 0, FB_SIZE)
    ensures var d' := Feed(d, WireAll(ps));
            && d'.fsm.op.CodeLow? && Shows(d', c.bitrev, newBuf) && SameBeyond(d, d', FB_SIZE)
            && d'.display.flags == if oldBuf == newBuf then d.display.flags else c.flags
  {
    FrameConverts(c, newFrame, oldBuf, newBuf, ps);
    ConvertsDrivesDevice(d, c, newFrame, oldBuf, newBuf, ps);
  }

  /**
   * Whatever state the packets before left the device in, as long as it waits for a command and
   * shows the old frame, the wire bytes of `encode_diff` make it show the new frame, wait for a
   * command again, and carry the encoder's flags if anything was sent; memory beyond the frame is
   * not touched.
   */
  lemma EncodeDiffDrivesDevice(d: Device, c: Config, newFrame: bool, oldBuf: seq<u8>, newBuf: seq<u8>)
    requires |oldBuf| == FB_SIZE && |newBuf| == FB_SIZE
    requires d.fsm.op.CodeLow? && Shows(d, c.bitrev, oldBuf)
    ensures var d' := Feed(d, WireAll(DiffPackets(c, newFrame, oldBuf, newBuf, 0, FB_SIZE)));
            && d'.fsm.op.CodeLow? && Shows(d', c.bitrev, newBuf) && SameBeyond(d, d', FB_SIZE)
            && d'.display.flags == if oldBuf == newBuf then d.display.flags else c.flags
  {
    FrameDrivesDevice(d, c, newFrame, oldBuf, newBuf, DiffPackets(c, newFrame, oldBuf, newBuf, 0, FB_SIZE));
  }
}
