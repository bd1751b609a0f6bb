/**
 * Bringing the frame buffer up to date from damage clips: `p4_process_clip_rotated` and the
 * accumulating part of `p4_update` in kmod/drm_p4_main.c.
 */
module Damage {
  import opened Bytes
  import opened Modular
  import opened Rotation

  /** What userspace drew, as black and white: pixel (x, y) of the source framebuffer. */
  type Picture = (nat, nat) -> bool

  /** The size of the source framebuffer, in whole blocks (720 by 280 pixels in rotated mode). */
  datatype Screen = Screen(w: nat, h: nat)

  ghost predicate Proper(s: Screen) {
    s.w % 8 == 0 && s.h % 8 == 0 && s.h > 0
  }

  /** `dst_buf`: `w` rows of `h / 8` bytes. */
  ghost predicate Sized(s: Screen, dst: seq<u8>) {
    Proper(s) && |dst| == s.w * (s.h / 8)
  }

  datatype Clip = Clip(x1: nat, y1: nat, x2: nat, y2: nat)

  /** The clip widened to whole blocks and cut off at the edges of the framebuffer. */
  function Aligned(s: Screen, c: Clip): Range {
    Range(c.x1 / 8, Min((c.x2 + 7) / 8 * 8, s.w) / 8, c.y1 / 8, Min((c.y2 + 7) / 8 * 8, s.h) / 8)
  }

  predicate InBlocks(r: Range, x: nat, y: nat) {
    r.x0 <= x / 8 < r.x1 && r.y0 <= y / 8 < r.y1
  }

  predicate InClip(c: Clip, x: nat, y: nat) {
    c.x1 <= x < c.x2 && c.y1 <= y < c.y2
  }

  /** Widening loses no pixel of the clip. */
  lemma AlignedCovers(s: Screen, c: Clip, x: nat, y: nat)
    requires Proper(s) && x < s.w && y < s.h && InClip(c, x, y)
    ensures InBlocks(Aligned(s, c), x, y)
  {}

  /** Where source pixel (x, y) is kept: the picture is turned by a quarter counter-clockwise. */
  function PixelIdx(s: Screen, x: nat, y: nat): int {
    (s.w - 1 - x) * (s.h / 8) + y / 8
  }

  lemma PixelInside(s: Screen, x: nat, y: nat)
    requires Proper(s) && x < s.w && y < s.h
    ensures 0 <= PixelIdx(s, x, y) < s.w * (s.h / 8)
  {
    var row, n := s.w - 1 - x, s.h / 8;
    MulMono(0, row, 0, n);
    MulMono(row + 1, s.w, n, n);
    assert (row + 1) * n == row * n + n;
  }

  ghost predicate Shows(s: Screen, dst: seq<u8>, x: nat, y: nat)
    requires Sized(s, dst) && x < s.w && y < s.h
  {
    PixelInside(s, x, y);
    PixelM(dst[PixelIdx(s, x, y)], y % 8)
  }

  /** `dst` is the rotation of the picture. */
  ghost predicate IsRotationOf(s: Screen, dst: seq<u8>, img: Picture)
    requires Sized(s, dst)
  {
    forall x: nat, y: nat | x < s.w && y < s.h :: Shows(s, dst, x, y) == img(x, y)
  }

  /** There is only one. */
  lemma OneRotation(s: Screen, a: seq<u8>, b: seq<u8>, img: Picture)
    requires Sized(s, a) && Sized(s, b) && IsRotationOf(s, a, img) && IsRotationOf(s, b, img)
    ensures a == b
  {
    var n := s.h / 8;
    forall q | 0 <= q < |a|
      ensures a[q] == b[q]
    {
      ByteIsPixels(s, q);
      var x, y := s.w - 1 - q / n, q % n * 8;
      forall i | 0 <= i < 8
        ensures PixelM(a[q], i) == PixelM(b[q], i)
      {
        assert (y + i) / 8 == q % n && (y + i) % 8 == i;
        assert PixelIdx(s, x, y + i) == q;
        assert Shows(s, a, x, y + i) == img(x, y + i) == Shows(s, b, x, y + i);
      }
      SamePixels(a[q], b[q]);
    }
  }

  lemma ByteIsPixels(s: Screen, q: nat)
    requires Proper(s) && q < s.w * (s.h / 8)
    ensures var n := s.h / 8;
            && 0 <= s.w - 1 - q / n && 8 * (q % n) + 7 < s.h
            && (q / n) * n + q % n == q
  {
    var n := s.h / 8;
    assert (q / n) * n + q % n == q;
    if s.w < q / n + 1 {
      MulGap(n, s.w, q / n + 1);
    }
  }

  // ---- The compact conversion ----

  /** The eight pixels from (x, y) to the right, the leftmost in the least significant bit. */
  ghost predicate ByteShows(b: u8, img: Picture, x: nat, y: nat) {
    forall c: nat | c < 8 :: PixelL(b, c) == img(x + c, y)
  }

  /** Where the conversion puts byte `j` of line `l`: lines follow each other without gaps. */
  function LineIdx(r: Range, l: nat, j: nat): int {
    l * (r.x1 - r.x0) + j
  }

  ghost predicate LineShows(img: Picture, r: Range, buf: seq<u8>, l: nat, j: nat) {
    0 <= LineIdx(r, l, j) < |buf| && ByteShows(buf[LineIdx(r, l, j)], img, 8 * (r.x0 + j), 8 * r.y0 + l)
  }

  /**
   * The contract of the format conversion, as kmod/drm_p4_main.c:85-93 describes it: the blocks of
   * the range, line by line, from the start of the buffer.
   */
  ghost predicate Compact(img: Picture, r: Range, buf: seq<u8>)
    requires r.x0 < r.x1 && r.y0 < r.y1
  {
    forall l: nat, j: nat | l < 8 * (r.y1 - r.y0) && j < r.x1 - r.x0 :: LineShows(img, r, buf, l, j)
  }

  /** Eight pixels as wires. */
  function Packed(img: Picture, x: nat, y: nat): bv8 {
    (if img(x, y) then 0x01 else 0) | (if img(x + 1, y) then 0x02 else 0)
    | (if img(x + 2, y) then 0x04 else 0) | (if img(x + 3, y) then 0x08 else 0)
    | (if img(x + 4, y) then 0x10 else 0) | (if img(x + 5, y) then 0x20 else 0)
    | (if img(x + 6, y) then 0x40 else 0) | (if img(x + 7, y) then 0x80 else 0)
  }

  lemma PackedPixels(img: Picture, x: nat, y: nat, c: nat)
    requires c < 8
    ensures BitOf(Packed(img, x, y), c) == img(x + c, y)
  {}

  method PackByte(img: Picture, x: nat, y: nat) returns (b: u8)
    ensures ByteShows(b, img, x, y)
  {
    b := Un(Packed(img, x, y));
    BvUn(Packed(img, x, y));
    forall c: nat | c < 8
      ensures PixelL(b, c) == img(x + c, y)
    {
      PackedPixels(img, x, y, c);
    }
  }

  lemma LineInside(s: Screen, r: Range, l: nat, j: nat)
    requires Proper(s) && r.x0 < r.x1 <= s.w / 8 && r.y0 < r.y1 <= s.h / 8
    requires l < 8 * (r.y1 - r.y0) && j < r.x1 - r.x0
    ensures 0 <= LineIdx(r, l, j) < s.w * (s.h / 8)
  {
    var cw := r.x1 - r.x0;
    var a, b := s.w / 8, s.h / 8;
    MulMono(0, l, 0, cw);
    MulMono(l + 1, 8 * b, cw, a);
    assert (l + 1) * cw == l * cw + cw;
    assert 8 * b * a == 8 * a * b == s.w * b;
  }

  /** Different bytes of the block go to different places. */
  lemma LineApart(r: Range, l: nat, j: nat, l': nat, j': nat)
    requires j < r.x1 - r.x0 && j' < r.x1 - r.x0 && LineIdx(r, l, j) == LineIdx(r, l', j')
    ensures l == l' && j == j'
  {
    ModUnique(LineIdx(r, l, j), r.x1 - r.x0, l, j);
    ModUnique(LineIdx(r, l', j'), r.x1 - r.x0, l', j');
  }

  predicate Before(l: nat, j: nat, l': nat, j': nat) {
    l < l' || (l == l' && j < j')
  }

  /** The conversion, standing for the function of the DRM core with the contract above. */
  method ConvertToMono(img: Picture, r: Range, buf: array<u8>, ghost s: Screen)
    requires Proper(s) && r.x0 < r.x1 <= s.w / 8 && r.y0 < r.y1 <= s.h / 8
    requires s.w * (s.h / 8) <= buf.Length
    modifies buf
    ensures Compact(img, r, buf[..])
  {
    var lines, cw := 8 * (r.y1 - r.y0), r.x1 - r.x0;
    var l := 0;
    while l < lines
      invariant l <= lines
      invariant forall l': nat, j': nat | l' < lines && j' < cw && Before(l', j', l, 0) :: LineShows(img, r, buf[..], l', j')
    {
      var j := 0;
      while j < cw
        invariant j <= cw
        invariant forall l': nat, j': nat | l' < lines && j' < cw && Before(l', j', l, j) :: LineShows(img, r, buf[..], l', j')
      {
        ConvertByte(img, r, buf, s, l, j);
        j := j + 1;
      }
      l := l + 1;
    }
  }

  method ConvertByte(img: Picture, r: Range, buf: array<u8>, ghost s: Screen, l: nat, j: nat)
    requires Proper(s) && r.x0 < r.x1 <= s.w / 8 && r.y0 < r.y1 <= s.h / 8
    requires s.w * (s.h / 8) <= buf.Length && l < 8 * (r.y1 - r.y0) && j < r.x1 - r.x0
    requires forall l': nat, j': nat | l' < 8 * (r.y1 - r.y0) && j' < r.x1 - r.x0 && Before(l', j', l, j) ::
               LineShows(img, r, buf[..], l', j')
    modifies buf
    ensures forall l': nat, j': nat | l' < 8 * (r.y1 - r.y0) && j' < r.x1 - r.x0 && Before(l', j', l, j + 1) ::
              LineShows(img, r, buf[..], l', j')
  {
    ghost var was := buf[..];
    LineInside(s, r, l, j);
    var b := PackByte(img, 8 * (r.x0 + j), 8 * r.y0 + l);
    buf[LineIdx(r, l, j)] := b;
    forall l': nat, j': nat | l' < 8 * (r.y1 - r.y0) && j' < r.x1 - r.x0 && Before(l', j', l, j + 1)
      ensures LineShows(img, r, buf[..], l', j')
    {
      if l' != l || j' != j {
        assert LineShows(img, r, was, l', j');
        if LineIdx(r, l', j') == LineIdx(r, l, j) {
          LineApart(r, l', j', l, j);
        }
      }
    }
  }

  // ---- One clip ----

  /** The source pointer is moved back so that block (x0, y0) of the screen is at the start of the buffer. */
  function ClipGeometry(s: Screen, r: Range): Geometry
    requires r.x0 < r.x1
  {
    var stride := r.x1 - r.x0;
    Geometry(-(r.y0 * 8 * stride) - r.x0, stride, s.h / 8, s.w / 8)
  }

  /** Pixel (x, y) of the screen is where the conversion put it. */
  lemma ShiftedSource(s: Screen, r: Range, cx: nat, y: nat)
    requires r.x0 <= cx < r.x1 && 8 * r.y0 <= y
    ensures SrcIdx(ClipGeometry(s, r), cx, y) == LineIdx(r, y - 8 * r.y0, cx - r.x0)
  {
    var n := r.x1 - r.x0;
    assert y * n - r.y0 * 8 * n == (y - 8 * r.y0) * n;
  }

  /** Every block of the clip is inside both buffers, however the base was moved. */
  lemma ClipIsCallable(s: Screen, r: Range, srcLen: nat, dstLen: nat)
    requires Proper(s) && r.x0 < r.x1 <= s.w / 8 && r.y0 < r.y1 <= s.h / 8
    requires s.w * (s.h / 8) <= srcLen && dstLen == s.w * (s.h / 8)
    ensures Callable(ClipGeometry(s, r), r, srcLen, dstLen)
  {
    var g := ClipGeometry(s, r);
    forall cx: nat, cy: nat | r.x0 <= cx < r.x1 && r.y0 <= cy < r.y1
      ensures Fits(g, srcLen, dstLen, cx, cy)
    {
      forall y: nat | 8 * cy <= y < 8 * cy + 8
        ensures 0 <= SrcIdx(g, cx, y) < srcLen
      {
        ShiftedSource(s, r, cx, y);
        LineInside(s, r, y - 8 * r.y0, cx - r.x0);
      }
      forall k: nat | k < 8
        ensures 0 <= DstIdx(g, cx, cy, k) < dstLen
      {
        PixelInside(s, 8 * cx + 7 - k, 8 * cy);
        assert DstIdx(g, cx, cy, k) == PixelIdx(s, 8 * cx + 7 - k, 8 * cy);
      }
    }
  }

  /** After a rotation of converted blocks, those pixels are the picture's; the others are as before. */
  lemma ClipPixel(s: Screen, r: Range, img: Picture, src: seq<u8>, before: seq<u8>, after: seq<u8>, x: nat, y: nat)
    requires Sized(s, before) && r.x0 < r.x1 <= s.w / 8 && r.y0 < r.y1 <= s.h / 8
    requires Callable(ClipGeometry(s, r), r, |src|, |before|) && Rotates(ClipGeometry(s, r), r, src, before, after)
    requires Compact(img, r, src) && x < s.w && y < s.h
    ensures Shows(s, after, x, y) == if InBlocks(r, x, y) then img(x, y) else Shows(s, before, x, y)
  {
    var g := ClipGeometry(s, r);
    PixelInside(s, x, y);
    if InBlocks(r, x, y) {
      PixelsTurn(g, r, src, before, after, x, y);
      ShiftedSource(s, r, x / 8, y);
      var l, j := y - 8 * r.y0, x / 8 - r.x0;
      assert LineShows(img, r, src, l, j);
      assert PixelL(src[LineIdx(r, l, j)], x % 8) == img(8 * (r.x0 + j) + x % 8, 8 * r.y0 + l);
      assert 8 * (r.x0 + j) + x % 8 == x && 8 * r.y0 + l == y;
    } else {
      BlockOfIdx(g, x / 8, y / 8, 7 - x % 8);
      assert DstIdx(g, x / 8, y / 8, 7 - x % 8) == PixelIdx(s, x, y);
      assert !Within(g, r, PixelIdx(s, x, y));
    }
  }

  /** `p4_process_clip_rotated` */
  method ProcessClip(s: Screen, img: Picture, srcBuf: array<u8>, dst: array<u8>, c: Clip, simd: bool)
    requires srcBuf != dst && Sized(s, dst[..]) && srcBuf.Length == dst.Length
    modifies srcBuf, dst
    ensures Sized(s, dst[..])
    ensures forall x: nat, y: nat | x < s.w && y < s.h ::
              Shows(s, dst[..], x, y) == if InBlocks(Aligned(s, c), x, y) then img(x, y) else Shows(s, old(dst[..]), x, y)
  {
    var r := Aligned(s, c);
    if r.x0 >= r.x1 || r.y0 >= r.y1 {
      return;
    }
    ghost var before := dst[..];
    ConvertToMono(img, r, srcBuf, s);
    ClipIsCallable(s, r, srcBuf.Length, dst.Length);
    RotateBlocks(srcBuf, dst, ClipGeometry(s, r), r, simd);
    forall x: nat, y: nat | x < s.w && y < s.h
      ensures Shows(s, dst[..], x, y) == if InBlocks(r, x, y) then img(x, y) else Shows(s, before, x, y)
    {
      ClipPixel(s, r, img, srcBuf[..], before, dst[..], x, y);
    }
  }

  // ---- Whole updates ----

  /** Some clip, widened, holds the pixel. */
  ghost predicate Damaged(s: Screen, clips: seq<Clip>, x: nat, y: nat) {
    exists k :: 0 <= k < |clips| && InBlocks(Aligned(s, clips[k]), x, y)
  }

  /** The clips name every pixel in which the pictures differ. */
  ghost predicate Covers(s: Screen, clips: seq<Clip>, was: Picture, img: Picture) {
    forall x: nat, y: nat | x < s.w && y < s.h && was(x, y) != img(x, y) ::
      exists k :: 0 <= k < |clips| && InClip(clips[k], x, y)
  }

  lemma DamagedNext(s: Screen, clips: seq<Clip>, n: nat, x: nat, y: nat)
    requires n < |clips|
    ensures Damaged(s, clips[..n + 1], x, y) <==> Damaged(s, clips[..n], x, y) || InBlocks(Aligned(s, clips[n]), x, y)
  {
    if Damaged(s, clips[..n], x, y) {
      var k :| 0 <= k < n && InBlocks(Aligned(s, clips[..n][k]), x, y);
      assert clips[..n + 1][k] == clips[..n][k];
    }
    if Damaged(s, clips[..n + 1], x, y) {
      var k :| 0 <= k < n + 1 && InBlocks(Aligned(s, clips[..n + 1][k]), x, y);
      assert k < n ==> clips[..n][k] == clips[..n + 1][k];
    }
    assert clips[..n + 1][n] == clips[n];
  }

  /** The damage loop of `p4_update`. */
  method ProcessDamage(s: Screen, img: Picture, srcBuf: array<u8>, dst: array<u8>, clips: seq<Clip>, simd: bool)
    requires srcBuf != dst && Sized(s, dst[..]) && srcBuf.Length == dst.Length
    modifies srcBuf, dst
    ensures Sized(s, dst[..])
    ensures forall x: nat, y: nat | x < s.w && y < s.h ::
              Shows(s, dst[..], x, y) == if Damaged(s, clips, x, y) then img(x, y) else Shows(s, old(dst[..]), x, y)
  {
    ghost var before := dst[..];
    var n := 0;
    while n < |clips|
      invariant n <= |clips|
      invariant Sized(s, dst[..])
      invariant forall x: nat, y: nat | x < s.w && y < s.h ::
                  Shows(s, dst[..], x, y) == if Damaged(s, clips[..n], x, y) then img(x, y) else Shows(s, before, x, y)
    {
      ProcessClip(s, img, srcBuf, dst, clips[n], simd);
      forall x: nat, y: nat | x < s.w && y < s.h
        ensures Damaged(s, clips[..n + 1], x, y) <==> Damaged(s, clips[..n], x, y) || InBlocks(Aligned(s, clips[n]), x, y)
      {
        DamagedNext(s, clips, n, x, y);
      }
      n := n + 1;
    }
    assert clips[..n] == clips;
  }

  /** Clips that cover the changes turn the rotation of the old picture into that of the new one. */
  lemma DamageSuffices(s: Screen, clips: seq<Clip>, was: Picture, img: Picture, before: seq<u8>, after: seq<u8>)
    requires Sized(s, before) && Sized(s, after) && IsRotationOf(s, before, was) && Covers(s, clips, was, img)
    requires forall x: nat, y: nat | x < s.w && y < s.h ::
               Shows(s, after, x, y) == if Damaged(s, clips, x, y) then img(x, y) else Shows(s, before, x, y)
    ensures IsRotationOf(s, after, img)
  {
    forall x: nat, y: nat | x < s.w && y < s.h
      ensures Shows(s, after, x, y) == img(x, y)
    {
      if was(x, y) != img(x, y) {
        var k :| 0 <= k < |clips| && InClip(clips[k], x, y);
        AlignedCovers(s, clips[k], x, y);
        assert Damaged(s, clips, x, y);
      }
    }
  }

  /**
   * `p4_update`, as far as `dst_buf[0]` is concerned: a full refresh makes it the rotation of the
   * picture, whatever it was; damage that covers the changes does so if it was the rotation of the
   * picture before.
   */
  method Accumulate(s: Screen, img: Picture, srcBuf: array<u8>, dst: array<u8>, full: bool, clips: seq<Clip>,
                    simd: bool, ghost was: Picture)
    requires srcBuf != dst && Sized(s, dst[..]) && srcBuf.Length == dst.Length
    requires full || (IsRotationOf(s, dst[..], was) && Covers(s, clips, was, img))
    modifies srcBuf, dst
    ensures Sized(s, dst[..]) && IsRotationOf(s, dst[..], img)
  {
    if full {
      forall i | 0 <= i < dst.Length {
        dst[i] := 0;
      }
      var all := Clip(0, 0, s.w, s.h);
      ProcessClip(s, img, srcBuf, dst, all, simd);
      forall x: nat, y: nat | x < s.w && y < s.h
        ensures Shows(s, dst[..], x, y) == img(x, y)
      {
        AlignedCovers(s, all, x, y);
      }
    } else {
      ghost var before := dst[..];
      ProcessDamage(s, img, srcBuf, dst, clips, simd);
      DamageSuffices(s, clips, was, img, before, dst[..]);
    }
  }
}
