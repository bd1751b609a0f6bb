/** How large an encoding can get, and that it can exceed the send buffer. */
module SizeBound {
  import opened Bytes
  import opened Packets
  import opened DiffScan
  import opened RleScan
  import opened Encoder
  import opened EndToEnd

  // ---- One span ----

  /** Bytes on the wire for one segment. */
  function SegmentCost(s: Segment): nat {
    HDR_SIZE_DATA + if s.rle then 1 else s.len
  }

  function Cost(segs: seq<Segment>): nat {
    if segs == [] then 0 else SegmentCost(segs[0]) + Cost(segs[1..])
  }

  /** Repeated segments are at least `RLE_MIN_RUN` long. */
  ghost predicate LongRuns(segs: seq<Segment>) {
    forall k | 0 <= k < |segs| :: segs[k].rle ==> segs[k].len >= RLE_MIN_RUN
  }

  /**
   * Literals never follow each other and repeated segments cover at least eight bytes. The worst
   * case alternates one literal byte, seven bytes on the wire, with runs of eight, seven more.
   */
  lemma {:induction false} CostBound(segs: seq<Segment>, lo: nat, hi: nat)
    requires Partition(segs, lo, hi) && LongRuns(segs) && lo <= hi
    ensures 9 * Cost(segs) <= 14 * (hi - lo) + if segs == [] || segs[0].rle then 0 else 49
    decreases |segs|
  {
    if segs != [] {
      var rest := segs[1..];
      assert forall k | 0 <= k < |rest| :: rest[k] == segs[k + 1];
      PartitionInside(segs, lo, hi);
      CostBound(rest, lo + segs[0].len, hi);
    }
  }

  lemma SegmentsLongRuns(buf: seq<u8>)
    ensures LongRuns(Segments(buf, RLE_MIN_RUN))
  {
    var segs := Segments(buf, RLE_MIN_RUN);
    SegmentsInside(buf, RLE_MIN_RUN);
    forall k | 0 <= k < |segs| && segs[k].rle
      ensures segs[k].len >= RLE_MIN_RUN
    {
      var s := segs[k];
      assert Segment(s.off, (s.off + s.len) - s.off, true) in segs;
      SplitKeeps(buf, RLE_MIN_RUN, 0, 0, s.off, s.off + s.len);
    }
  }

  /** Packet `k` has the cost of segment `k`. */
  ghost predicate Costs(ps: seq<Packet>, segs: seq<Segment>) {
    |ps| == |segs| && forall k | 0 <= k < |ps| :: |Wire(ps[k])| == SegmentCost(segs[k])
  }

  lemma {:induction false} WireAllCost(ps: seq<Packet>, segs: seq<Segment>)
    requires Costs(ps, segs)
    ensures |WireAll(ps)| == Cost(segs)
    decreases |ps|
  {
    if ps != [] {
      assert Costs(ps[1..], segs[1..]) by {
        assert forall k | 0 <= k < |ps[1..]| :: ps[1..][k] == ps[k + 1] && segs[1..][k] == segs[k + 1];
      }
      WireAllCost(ps[1..], segs[1..]);
    }
  }

  lemma SpanCost(c: Config, newFrame: bool, base: nat, buf: seq<u8>)
    requires base + |buf| <= FB_SIZE
    ensures |WireAll(SpanPackets(c, newFrame, base, buf))| == Cost(Segments(buf, RLE_MIN_RUN))
  {
    var segs := Segments(buf, RLE_MIN_RUN);
    SegmentsInside(buf, RLE_MIN_RUN);
    var ps := SegmentPackets(c, newFrame, base, buf, segs);
    forall k | 0 <= k < |ps|
      ensures |Wire(ps[k])| == SegmentCost(segs[k])
    {
      assert Inside(segs[k], |buf|);
    }
    WireAllCost(ps, segs);
  }

  /** A region of `n > 0` bytes is encoded in at most `(14 n + 49) / 9` bytes. */
  lemma SpanBound(c: Config, newFrame: bool, base: nat, buf: seq<u8>)
    requires base + |buf| <= FB_SIZE
    ensures 9 * |WireAll(SpanPackets(c, newFrame, base, buf))| <= 14 * |buf| + 49
  {
    SpanCost(c, newFrame, base, buf);
    SplitIsPartition(buf, RLE_MIN_RUN, 0, 0);
    SegmentsLongRuns(buf);
    CostBound(Segments(buf, RLE_MIN_RUN), 0, |buf|);
  }

  // ---- A whole difference ----

  /** The packets `pss[k]` respect the bound for region `k`. */
  ghost predicate Bounded(rs: seq<Region>, pss: seq<seq<Packet>>) {
    && |pss| == |rs|
    && forall k | 0 <= k < |rs| ::
         rs[k].start < rs[k].end && 9 * |WireAll(pss[k])| <= 14 * (rs[k].end - rs[k].start) + 49
  }

  /** Neighbouring regions are six bytes apart, which pays for the constant of all but one of them. */
  lemma {:induction false} FlattenBound(rs: seq<Region>, pss: seq<seq<Packet>>, hi: nat)
    requires Bounded(rs, pss) && Spaced(HDR_SIZE_DATA, rs) && rs != []
    requires forall k | 0 <= k < |rs| :: rs[k].end <= hi
    ensures 9 * |WireAll(Flatten(pss))| <= 14 * (hi - rs[0].start) + 49
    decreases |rs|
  {
    var rest, pss' := rs[1..], pss[1..];
    WireAllConcat(pss[0], Flatten(pss'));
    if rest == [] {
      assert Flatten(pss') == [];
    } else {
      assert forall k | 0 <= k < |rest| :: rest[k] == rs[k + 1] && pss'[k] == pss[k + 1];
      assert forall k | 0 < k < |rest| :: rest[k - 1] == rs[k] && rest[k] == rs[k + 1];
      assert rs[0].end + HDR_SIZE_DATA <= rs[1].start;
      FlattenBound(rest, pss', hi);
    }
  }

  lemma RegionBound(c: Config, newFrame: bool, img: seq<u8>, base: nat, r: Region, ps: seq<Packet>)
    requires r.start < r.end && base + r.end <= |img| && base + r.end <= FB_SIZE
    requires ps == SpanPackets(c, newFrame, base + r.start, img[base + r.start..base + r.end])
    ensures 9 * |WireAll(ps)| <= 14 * (r.end - r.start) + 49
  {
    SpanBound(c, newFrame, base + r.start, img[base + r.start..base + r.end]);
  }

  lemma SpansBounded(c: Config, newFrame: bool, img: seq<u8>, base: nat, rs: seq<Region>)
    requires RegionsFit(img, base, rs)
    ensures Bounded(rs, Spans(c, newFrame, img, base, rs))
  {
    var pss := Spans(c, newFrame, img, base, rs);
    forall k | 0 <= k < |rs|
      ensures 9 * |WireAll(pss[k])| <= 14 * (rs[k].end - rs[k].start) + 49
    {
      RegionBound(c, newFrame && k == 0, img, base, rs[k], pss[k]);
    }
  }

  /** An encoding of `n` scanned bytes takes at most `(14 n + 49) / 9` bytes. */
  lemma DiffBound(c: Config, newFrame: bool, oldBuf: seq<u8>, newBuf: seq<u8>, scanStart: nat, scanEnd: nat)
    requires scanStart <= scanEnd && RoundUp(scanEnd) <= |oldBuf| && RoundUp(scanEnd) <= |newBuf|
    requires RoundUp(scanEnd) <= FB_SIZE
    ensures 9 * |WireAll(DiffPackets(c, newFrame, oldBuf, newBuf, scanStart, scanEnd))|
         <= 14 * (RoundUp(scanEnd) - RoundDown(scanStart)) + 49
  {
    var s, e := RoundDown(scanStart), RoundUp(scanEnd);
    var rs := ScanRegions(oldBuf, newBuf, scanStart, scanEnd);
    ScanRegionsFit(oldBuf, newBuf, scanStart, scanEnd);
    ScanRegionsFound(oldBuf, newBuf, scanStart, scanEnd);
    SpansBounded(c, newFrame, newBuf, s, rs);
    if rs != [] {
      FlattenBound(rs, Spans(c, newFrame, newBuf, s, rs), e - s);
    }
  }

  /** A difference of at most 21061 scanned bytes fits the empty buffer of 32768 bytes, whatever it is. */
  lemma DiffFits(c: Config, newFrame: bool, oldBuf: seq<u8>, newBuf: seq<u8>, scanStart: nat, scanEnd: nat)
    requires scanStart <= scanEnd && RoundUp(scanEnd) <= |oldBuf| && RoundUp(scanEnd) <= |newBuf|
    requires RoundUp(scanEnd) <= FB_SIZE && RoundUp(scanEnd) - RoundDown(scanStart) <= 21061
    ensures |WireAll(DiffPackets(c, newFrame, oldBuf, newBuf, scanStart, scanEnd))| <= 32768 == SPI_BUF_SIZE
  {
    DiffBound(c, newFrame, oldBuf, newBuf, scanStart, scanEnd);
  }

  // ---- The bound is reached, and does not fit the buffer ----

  /** Eight equal bytes and a different one, over and over. */
  ghost predicate IsWorst(f: seq<u8>) {
    |f| == FB_SIZE && forall i | 0 <= i < FB_SIZE :: f[i] == if i % 9 == 8 then 2 else 1
  }

  function Worst(): (f: seq<u8>)
    ensures IsWorst(f)
  {
    seq(FB_SIZE, i => if i % 9 == 8 then 2 else 1)
  }

  /** Buffers that differ in their first `m` bytes and nowhere else have one region. */
  lemma {:induction false} OnePrefix(a: seq<u8>, b: seq<u8>, gap: nat, n: nat, m: nat, i: nat)
    requires 0 < i && 0 < m <= n <= |a| && n <= |b| && i <= n && gap > 0
    requires forall k | 0 <= k < n :: a[k] != b[k] <==> k < m
    ensures Scan(a, b, gap, n, i, Some(Region(0, if i < m then i else m))) == [Region(0, m)]
    decreases n - i
  {
    if i < n {
      OnePrefix(a, b, gap, n, m, i + 1);
    }
  }

  lemma WorstRegion(a: seq<u8>, b: seq<u8>)
    requires a == Zeros() && IsWorst(b)
    ensures ScanRegions(a, b, 0, FB_SIZE) == [Region(0, FB_SIZE)]
  {
    assert a[0..] == a && b[0..] == b;
    OnePrefix(a, b, HDR_SIZE_DATA, FB_SIZE, FB_SIZE, 1);
  }

  lemma WorstRuns(f: seq<u8>, k: nat)
    requires IsWorst(f) && 9 * k < FB_SIZE
    ensures RunEnd(f, 9 * k) == 9 * k + 8
    ensures RunEnd(f, 9 * k + 8) == 9 * k + 9
  {
    assert 9 * k + 9 <= FB_SIZE;
    assert forall i | 9 * k <= i < 9 * k + 8 :: f[i] == 1;
    assert f[9 * k + 8] == 2;
    if 9 * k + 9 < FB_SIZE {
      assert f[9 * (k + 1)] == 1;
    }
  }

  /** Each block is a repeated segment and one byte of the next literal. */
  lemma WorstBlock(f: seq<u8>, k: nat, lit: nat)
    requires IsWorst(f) && 9 * k < FB_SIZE && lit <= 9 * k
    ensures 9 * (k + 1) <= FB_SIZE
    ensures Split(f, RLE_MIN_RUN, lit, 9 * k)
         == Literal(lit, 9 * k) + ([Segment(9 * k, 8, true)] + Split(f, RLE_MIN_RUN, 9 * k + 8, 9 * (k + 1)))
  {
    WorstRuns(f, k);
    var tail := Split(f, RLE_MIN_RUN, 9 * k + 8, 9 * k + 8);
    assert tail == Split(f, RLE_MIN_RUN, 9 * k + 8, 9 * (k + 1));
    assert Literal(lit, 9 * k) + [Segment(9 * k, 8, true)] + tail
        == Literal(lit, 9 * k) + ([Segment(9 * k, 8, true)] + tail);
  }

  lemma CostCons(s: Segment, segs: seq<Segment>)
    ensures Cost([s] + segs) == SegmentCost(s) + Cost(segs)
  {
    assert ([s] + segs)[1..] == segs;
  }

  /** With at most one literal byte pending before block `k`, each block to come costs fourteen bytes. */
  lemma {:induction false} WorstCost(f: seq<u8>, k: nat, lit: nat)
    requires IsWorst(f) && 9 * k <= FB_SIZE && 9 * k - 1 <= lit <= 9 * k
    ensures Cost(Split(f, RLE_MIN_RUN, lit, 9 * k)) == 14 * (FB_SIZE / 9 - k) + if lit < 9 * k then 7 else 0
    decreases FB_SIZE - 9 * k
  {
    var pending, run := Segment(lit, 1, false), Segment(9 * k, 8, true);
    if 9 * k == FB_SIZE {
      CostCons(pending, []);
      assert Split(f, RLE_MIN_RUN, lit, 9 * k) == if lit < 9 * k then [pending] + [] else [];
    } else {
      WorstBlock(f, k, lit);
      var tail := Split(f, RLE_MIN_RUN, 9 * k + 8, 9 * (k + 1));
      WorstCost(f, k + 1, 9 * k + 8);
      CostCons(run, tail);
      if lit < 9 * k {
        CostCons(pending, [run] + tail);
      } else {
        assert Literal(lit, 9 * k) + ([run] + tail) == [run] + tail;
      }
    }
  }

  lemma WorstSpan(c: Config, newFrame: bool, f: seq<u8>)
    requires IsWorst(f)
    ensures |WireAll(SpanPackets(c, newFrame, 0, f))| == 39200
  {
    SpanCost(c, newFrame, 0, f);
    WorstCost(f, 0, 0);
  }

  lemma OneRegion(c: Config, newFrame: bool, img: seq<u8>, m: nat)
    requires |img| == FB_SIZE && 0 < m <= FB_SIZE
    ensures RegionPackets(c, newFrame, img, 0, [Region(0, m)]) == SpanPackets(c, newFrame, 0, img[..m])
  {
    var rs := [Region(0, m)];
    var ps, qs := FirstRegion(c, newFrame, img, 0, rs);
    assert rs[1..] == [] && img[0..m] == img[..m];
    assert ps + qs == ps;
  }

  /**
   * "Buffer overflow should never happen" is false: replacing a blank frame by the worst one takes
   * 39200 bytes, more than the empty buffer holds, so the frame is never sent.
   */
  lemma WorstFrameOverflows(c: Config, newFrame: bool, a: seq<u8>, b: seq<u8>)
    requires a == Zeros() && b == Worst()
    ensures |WireAll(DiffPackets(c, newFrame, a, b, 0, FB_SIZE))| == 39200 > SPI_BUF_SIZE
  {
    WorstRegion(a, b);
    WorstSpan(c, newFrame, b);
    OneRegion(c, newFrame, b, FB_SIZE);
    assert b[..FB_SIZE] == b;
  }
}
