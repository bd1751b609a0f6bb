/**
 * Rotating a one-bit-per-pixel image by a quarter turn, block by block: kmod/rotation.c and
 * kmod/rotate_neon.c.
 *
 * In the source image the least significant bit of a byte is its leftmost pixel; in the destination
 * it is the most significant one.
 */
module Rotation {
  import opened Bytes
  import opened Modular
  import opened BitMatrix

  /** Pixel `c` of a byte, the least significant bit first. */
  predicate PixelL(b: u8, c: nat)
    requires c < 8
  {
    BitOf(Bv(b), c)
  }

  /** Pixel `c` of a byte, the most significant bit first. */
  predicate PixelM(b: u8, c: nat)
    requires c < 8
  {
    BitOf(Bv(b), 7 - c)
  }

  lemma SameWires(a: bv8, b: bv8)
    requires forall i | 0 <= i < 8 :: BitOf(a, i) == BitOf(b, i)
    ensures a == b
  {
    assert BitOf(a, 0) == BitOf(b, 0) && BitOf(a, 1) == BitOf(b, 1) && BitOf(a, 2) == BitOf(b, 2);
    assert BitOf(a, 3) == BitOf(b, 3) && BitOf(a, 4) == BitOf(b, 4) && BitOf(a, 5) == BitOf(b, 5);
    assert BitOf(a, 6) == BitOf(b, 6) && BitOf(a, 7) == BitOf(b, 7);
  }

  /** A byte is its pixels. */
  lemma SamePixels(a: u8, b: u8)
    requires forall i | 0 <= i < 8 :: PixelM(a, i) == PixelM(b, i)
    ensures a == b
  {
    forall i | 0 <= i < 8
      ensures BitOf(Bv(a), i) == BitOf(Bv(b), i)
    {
      assert PixelM(a, 7 - i) == PixelM(b, 7 - i);
    }
    SameWires(Bv(a), Bv(b));
    BvInjective(a, b);
  }

  // ---- One block ----

  /** Eight destination rows against eight source rows. */
  ghost predicate Turned(col: seq<u8>, rows: seq<u8>) {
    && |col| == 8 && |rows| == 8
    && forall k, i | 0 <= k < 8 && 0 <= i < 8 :: PixelM(rows[k], i) == PixelL(col[i], 7 - k)
  }

  /** `scatter8_rot` before it stores: the bytes of a word, the top one first. */
  method Unpack(x: bv64) returns (rows: seq<u8>)
    ensures |rows| == 8 && forall k | 0 <= k < 8 :: rows[k] == Un(Scattered(x, k))
  {
    rows := seq(8, k requires 0 <= k < 8 => Un(Scattered(x, k)));
  }

  lemma UnpackedTurns(col: seq<u8>, x: bv64, rows: seq<u8>)
    requires |col| == 8 && x == Rotated(Gather8(BvAll(col)))
    requires |rows| == 8 && forall k | 0 <= k < 8 :: rows[k] == Un(Scattered(x, k))
    ensures Turned(col, rows)
  {
    forall k, i | 0 <= k < 8 && 0 <= i < 8
      ensures PixelM(rows[k], i) == PixelL(col[i], 7 - k)
    {
      BlockPixels(BvAll(col), k, i);
      BvUn(Scattered(x, k));
    }
  }

  /** The scalar code on one block. */
  method TurnBlock(col: seq<u8>) returns (rows: seq<u8>)
    requires |col| == 8
    ensures Turned(col, rows)
  {
    var x := Gather8(BvAll(col));
    x := Transpose8x8(x);
    x := Bswap64(x);
    rows := Unpack(x);
    UnpackedTurns(col, x, rows);
  }

  /** The code for an odd block in the vector version, with its own byte reversal. */
  method TurnOddBlock(col: seq<u8>) returns (rows: seq<u8>)
    requires |col| == 8
    ensures Turned(col, rows)
  {
    var val := Gather8(BvAll(col));
    val := Transpose8x8(val);
    RevIsSwap(val);
    val := Vrev64(val);
    rows := Unpack(val);
    UnpackedTurns(col, val, rows);
  }

  /** The vector code on two blocks. */
  method TurnBlocks(col0: seq<u8>, col1: seq<u8>) returns (rows0: seq<u8>, rows1: seq<u8>)
    requires |col0| == 8 && |col1| == 8
    ensures Turned(col0, rows0) && Turned(col1, rows1)
  {
    var lo, hi := NeonRotate(Gather8(BvAll(col0)), Gather8(BvAll(col1)));
    rows0 := Unpack(lo);
    rows1 := Unpack(hi);
    UnpackedTurns(col0, lo, rows0);
    UnpackedTurns(col1, hi, rows1);
  }

  // ---- Blocks in memory ----

  /**
   * Where the images lie: source row `y` starts at `srcBase + y * srcStride`, destination row `y` at
   * `y * dstStride`; the source is `blocksX` blocks wide. The base may be negative.
   */
  datatype Geometry = Geometry(srcBase: int, srcStride: nat, dstStride: nat, blocksX: nat)

  /** The blocks of columns `x0..x1` and rows `y0..y1`. */
  datatype Range = Range(x0: nat, x1: nat, y0: nat, y1: nat)

  function SrcIdx(g: Geometry, cx: nat, y: nat): int {
    g.srcBase + cx + y * g.srcStride
  }

  /** Row `k` of what block (`cx`, `cy`) is turned into. */
  function DstIdx(g: Geometry, cx: nat, cy: nat, k: nat): int {
    ((g.blocksX - 1 - cx) * 8 + k) * g.dstStride + cy
  }

  ghost predicate Fits(g: Geometry, srcLen: nat, dstLen: nat, cx: nat, cy: nat) {
    && cx < g.blocksX && cy < g.dstStride
    && (forall y: nat | 8 * cy <= y < 8 * cy + 8 :: 0 <= SrcIdx(g, cx, y) < srcLen)
    && (forall k: nat | k < 8 :: 0 <= DstIdx(g, cx, cy, k) < dstLen)
  }

  /** What the code demands of its caller: all blocks inside both buffers, and disjoint where they go. */
  ghost predicate Callable(g: Geometry, r: Range, srcLen: nat, dstLen: nat) {
    && g.dstStride > 0
    && forall cx: nat, cy: nat | r.x0 <= cx < r.x1 && r.y0 <= cy < r.y1 :: Fits(g, srcLen, dstLen, cx, cy)
  }

  /** The block that a destination byte belongs to, and its row there. */
  function BlockX(g: Geometry, q: nat): int
    requires g.dstStride > 0
  {
    g.blocksX - 1 - q / g.dstStride / 8
  }

  function BlockY(g: Geometry, q: nat): nat
    requires g.dstStride > 0
  {
    q % g.dstStride
  }

  function BlockRow(g: Geometry, q: nat): nat
    requires g.dstStride > 0
  {
    q / g.dstStride % 8
  }

  /** The destination bytes of different blocks are different. */
  lemma BlockOfIdx(g: Geometry, cx: nat, cy: nat, k: nat)
    requires cx < g.blocksX && cy < g.dstStride && k < 8
    ensures var q := DstIdx(g, cx, cy, k);
            q >= 0 && BlockX(g, q) == cx && BlockY(g, q) == cy && BlockRow(g, q) == k
  {
    var row := (g.blocksX - 1 - cx) * 8 + k;
    assert row * g.dstStride >= 0;
    ModUnique(DstIdx(g, cx, cy, k), g.dstStride, row, cy);
  }

  lemma IdxOfBlock(g: Geometry, q: nat)
    requires g.dstStride > 0 && BlockX(g, q) >= 0
    ensures DstIdx(g, BlockX(g, q), BlockY(g, q), BlockRow(g, q)) == q
  {
    var row := q / g.dstStride;
    assert (g.blocksX - 1 - BlockX(g, q)) * 8 + BlockRow(g, q) == row;
  }

  // ---- What rotating a range of blocks means ----

  predicate Within(g: Geometry, r: Range, q: nat)
    requires g.dstStride > 0
  {
    r.x0 <= BlockX(g, q) < r.x1 && r.y0 <= BlockY(g, q) < r.y1
  }

  /** Byte `b` shows column `7 - k` of the eight source rows of block (`cx`, `cy`). */
  ghost predicate ByteTurned(g: Geometry, src: seq<u8>, dstLen: nat, cx: nat, cy: nat, k: nat, b: u8)
    requires Fits(g, |src|, dstLen, cx, cy) && k < 8
  {
    forall i: nat | i < 8 :: PixelM(b, i) == PixelL(src[SrcIdx(g, cx, 8 * cy + i)], 7 - k)
  }

  /** The blocks of the range are turned; no other byte has changed. */
  ghost predicate Rotates(g: Geometry, r: Range, src: seq<u8>, before: seq<u8>, after: seq<u8>)
    requires Callable(g, r, |src|, |before|)
  {
    && |after| == |before|
    && forall q | 0 <= q < |before| ::
         if Within(g, r, q) then
           ByteTurned(g, src, |before|, BlockX(g, q), BlockY(g, q), BlockRow(g, q), after[q])
         else after[q] == before[q]
  }

  /** This determines the result. */
  lemma RotatesOnce(g: Geometry, r: Range, src: seq<u8>, before: seq<u8>, after: seq<u8>, after': seq<u8>)
    requires Callable(g, r, |src|, |before|)
    requires Rotates(g, r, src, before, after) && Rotates(g, r, src, before, after')
    ensures after == after'
  {
    forall q | 0 <= q < |before|
      ensures after[q] == after'[q]
    {
      if Within(g, r, q) {
        var cx, cy, k := BlockX(g, q), BlockY(g, q), BlockRow(g, q);
        assert ByteTurned(g, src, |before|, cx, cy, k, after[q]) && ByteTurned(g, src, |before|, cx, cy, k, after'[q]);
        SamePixels(after[q], after'[q]);
      }
    }
  }

  /**
   * Pixel by pixel: source pixel (`x`, `y`) of a block in the range goes to column `y` of row
   * `8 * blocksX - 1 - x`.
   */
  lemma PixelsTurn(g: Geometry, r: Range, src: seq<u8>, before: seq<u8>, after: seq<u8>, x: nat, y: nat)
    requires Callable(g, r, |src|, |before|) && Rotates(g, r, src, before, after)
    requires r.x0 <= x / 8 < r.x1 && r.y0 <= y / 8 < r.y1
    ensures var s := g.srcBase + x / 8 + y * g.srcStride;
            var d := (8 * g.blocksX - 1 - x) * g.dstStride + y / 8;
            && 0 <= s < |src| && 0 <= d < |after|
            && PixelM(after[d], y % 8) == PixelL(src[s], x % 8)
  {
    var cx, cy, k := x / 8, y / 8, 7 - x % 8;
    assert Fits(g, |src|, |before|, cx, cy);
    var d := DstIdx(g, cx, cy, k);
    assert (g.blocksX - 1 - cx) * 8 + k == 8 * g.blocksX - 1 - x;
    BlockOfIdx(g, cx, cy, k);
    assert Within(g, r, d);
    assert ByteTurned(g, src, |before|, cx, cy, k, after[d]);
    var i := y % 8;
    assert 8 * cy + i == y;
    assert PixelM(after[d], i) == PixelL(src[SrcIdx(g, cx, 8 * cy + i)], 7 - k);
  }

  // ---- The code: block after block ----

  /** Blocks before (`cx`, `cy`), column by column. */
  predicate Passed(g: Geometry, q: nat, cx: nat, cy: nat)
    requires g.dstStride > 0
  {
    BlockX(g, q) < cx || (BlockX(g, q) == cx && BlockY(g, q) < cy)
  }

  /** The blocks of the range before (`cx`, `cy`) are turned, and nothing else has changed. */
  ghost predicate RotatesUpTo(g: Geometry, r: Range, src: seq<u8>, before: seq<u8>, after: seq<u8>, cx: nat, cy: nat)
    requires Callable(g, r, |src|, |before|)
  {
    && |after| == |before|
    && forall q | 0 <= q < |before| ::
         if Within(g, r, q) && Passed(g, q, cx, cy) then
           ByteTurned(g, src, |before|, BlockX(g, q), BlockY(g, q), BlockRow(g, q), after[q])
         else after[q] == before[q]
  }

  ghost predicate IsColumn(g: Geometry, src: seq<u8>, dstLen: nat, cx: nat, cy: nat, col: seq<u8>)
    requires Fits(g, |src|, dstLen, cx, cy)
  {
    |col| == 8 && forall i: nat | i < 8 :: col[i] == src[SrcIdx(g, cx, 8 * cy + i)]
  }

  /** `now` is `was` with the eight bytes of a block replaced. */
  ghost predicate Stored(g: Geometry, was: seq<u8>, now: seq<u8>, cx: nat, cy: nat, rows: seq<u8>)
    requires g.dstStride > 0 && |rows| == 8
  {
    && |now| == |was|
    && forall q | 0 <= q < |was| ::
         now[q] == if BlockX(g, q) == cx && BlockY(g, q) == cy then rows[BlockRow(g, q)] else was[q]
  }

  lemma RowTurned(g: Geometry, src: seq<u8>, dstLen: nat, cx: nat, cy: nat, k: nat, col: seq<u8>, rows: seq<u8>)
    requires Fits(g, |src|, dstLen, cx, cy) && k < 8
    requires IsColumn(g, src, dstLen, cx, cy, col) && Turned(col, rows)
    ensures ByteTurned(g, src, dstLen, cx, cy, k, rows[k])
  {
    forall i: nat | i < 8
      ensures PixelM(rows[k], i) == PixelL(src[SrcIdx(g, cx, 8 * cy + i)], 7 - k)
    {
      assert PixelM(rows[k], i) == PixelL(col[i], 7 - k);
    }
  }

  lemma OneMoreBlock(g: Geometry, r: Range, src: seq<u8>, before: seq<u8>, was: seq<u8>, now: seq<u8>,
                     cx: nat, cy: nat, col: seq<u8>, rows: seq<u8>)
    requires Callable(g, r, |src|, |before|) && RotatesUpTo(g, r, src, before, was, cx, cy)
    requires r.x0 <= cx < r.x1 && r.y0 <= cy < r.y1
    requires IsColumn(g, src, |before|, cx, cy, col) && Turned(col, rows) && Stored(g, was, now, cx, cy, rows)
    ensures RotatesUpTo(g, r, src, before, now, cx, cy + 1)
  {
    forall q | 0 <= q < |before| && BlockX(g, q) == cx && BlockY(g, q) == cy
      ensures ByteTurned(g, src, |before|, cx, cy, BlockRow(g, q), now[q])
    {
      RowTurned(g, src, |before|, cx, cy, BlockRow(g, q), col, rows);
    }
  }

  /** One load of `gather8_rot`. */
  method LoadRow(src: array<u8>, g: Geometry, cx: nat, cy: nat, i: nat, ghost dstLen: nat) returns (b: u8)
    requires Fits(g, src.Length, dstLen, cx, cy) && i < 8
    ensures b == src[SrcIdx(g, cx, 8 * cy + i)]
  {
    var s := g.srcBase + cx + cy * 8 * g.srcStride;
    assert s + i * g.srcStride == SrcIdx(g, cx, 8 * cy + i) by {
      assert (8 * cy + i) * g.srcStride == cy * 8 * g.srcStride + i * g.srcStride;
    }
    b := src[s + i * g.srcStride];
  }

  /** The loads of `gather8_rot`. */
  method GatherColumn(src: array<u8>, g: Geometry, cx: nat, cy: nat, ghost dstLen: nat) returns (col: seq<u8>)
    requires Fits(g, src.Length, dstLen, cx, cy)
    ensures IsColumn(g, src[..], dstLen, cx, cy, col)
  {
    var b0 := LoadRow(src, g, cx, cy, 0, dstLen);
    var b1 := LoadRow(src, g, cx, cy, 1, dstLen);
    var b2 := LoadRow(src, g, cx, cy, 2, dstLen);
    var b3 := LoadRow(src, g, cx, cy, 3, dstLen);
    var b4 := LoadRow(src, g, cx, cy, 4, dstLen);
    var b5 := LoadRow(src, g, cx, cy, 5, dstLen);
    var b6 := LoadRow(src, g, cx, cy, 6, dstLen);
    var b7 := LoadRow(src, g, cx, cy, 7, dstLen);
    col := [b0, b1, b2, b3, b4, b5, b6, b7];
  }

  /** One store of `scatter8_rot`. */
  method StoreRow(dst: array<u8>, g: Geometry, cx: nat, cy: nat, k: nat, rows: seq<u8>, ghost was: seq<u8>)
    requires cx < g.blocksX && cy < g.dstStride && k < 8 && |rows| == 8
    requires 0 <= DstIdx(g, cx, cy, k) < dst.Length && |was| == dst.Length
    requires forall q | 0 <= q < dst.Length ::
               dst[q] == if BlockX(g, q) == cx && BlockY(g, q) == cy && BlockRow(g, q) < k then rows[BlockRow(g, q)] else was[q]
    modifies dst
    ensures forall q | 0 <= q < dst.Length ::
              dst[q] == if BlockX(g, q) == cx && BlockY(g, q) == cy && BlockRow(g, q) < k + 1 then rows[BlockRow(g, q)] else was[q]
  {
    dst[DstIdx(g, cx, cy, k)] := rows[k];
    BlockOfIdx(g, cx, cy, k);
    forall q | 0 <= q < dst.Length && BlockX(g, q) == cx && BlockY(g, q) == cy && BlockRow(g, q) == k
      ensures q == DstIdx(g, cx, cy, k)
    {
      IdxOfBlock(g, q);
    }
  }

  /** `scatter8_rot` */
  method ScatterRows(dst: array<u8>, g: Geometry, cx: nat, cy: nat, rows: seq<u8>, ghost srcLen: nat)
    requires Fits(g, srcLen, dst.Length, cx, cy) && |rows| == 8
    modifies dst
    ensures Stored(g, old(dst[..]), dst[..], cx, cy, rows)
  {
    ghost var was := dst[..];
    StoreRow(dst, g, cx, cy, 0, rows, was);
    StoreRow(dst, g, cx, cy, 1, rows, was);
    StoreRow(dst, g, cx, cy, 2, rows, was);
    StoreRow(dst, g, cx, cy, 3, rows, was);
    StoreRow(dst, g, cx, cy, 4, rows, was);
    StoreRow(dst, g, cx, cy, 5, rows, was);
    StoreRow(dst, g, cx, cy, 6, rows, was);
    StoreRow(dst, g, cx, cy, 7, rows, was);
  }

  /** One block of the scalar loop. */
  method RotateBlock(src: array<u8>, dst: array<u8>, g: Geometry, cx: nat, cy: nat, ghost r: Range, ghost before: seq<u8>)
    requires src != dst && |before| == dst.Length && Callable(g, r, src.Length, dst.Length)
    requires r.x0 <= cx < r.x1 && r.y0 <= cy < r.y1
    requires RotatesUpTo(g, r, src[..], before, dst[..], cx, cy)
    modifies dst
    ensures RotatesUpTo(g, r, src[..], before, dst[..], cx, cy + 1)
  {
    ghost var was := dst[..];
    var col := GatherColumn(src, g, cx, cy, dst.Length);
    var rows := TurnBlock(col);
    ScatterRows(dst, g, cx, cy, rows, src.Length);
    OneMoreBlock(g, r, src[..], before, was, dst[..], cx, cy, col, rows);
  }

  /** The odd block of the vector version. */
  method RotateOddBlock(src: array<u8>, dst: array<u8>, g: Geometry, cx: nat, cy: nat,
                        ghost r: Range, ghost before: seq<u8>)
    requires src != dst && |before| == dst.Length && Callable(g, r, src.Length, dst.Length)
    requires r.x0 <= cx < r.x1 && r.y0 <= cy < r.y1
    requires RotatesUpTo(g, r, src[..], before, dst[..], cx, cy)
    modifies dst
    ensures RotatesUpTo(g, r, src[..], before, dst[..], cx, cy + 1)
  {
    ghost var was := dst[..];
    var col := GatherColumn(src, g, cx, cy, dst.Length);
    var rows := TurnOddBlock(col);
    ScatterRows(dst, g, cx, cy, rows, src.Length);
    OneMoreBlock(g, r, src[..], before, was, dst[..], cx, cy, col, rows);
  }

  /** Two blocks of the vector loop: both are gathered before either is stored. */
  method RotateTwoBlocks(src: array<u8>, dst: array<u8>, g: Geometry, cx: nat, cy: nat, ghost r: Range, ghost before: seq<u8>)
    requires src != dst && |before| == dst.Length && Callable(g, r, src.Length, dst.Length)
    requires r.x0 <= cx < r.x1 && r.y0 <= cy && cy + 1 < r.y1
    requires RotatesUpTo(g, r, src[..], before, dst[..], cx, cy)
    modifies dst
    ensures RotatesUpTo(g, r, src[..], before, dst[..], cx, cy + 2)
  {
    ghost var was := dst[..];
    var col0 := GatherColumn(src, g, cx, cy, dst.Length);
    var col1 := GatherColumn(src, g, cx, cy + 1, dst.Length);
    var rows0, rows1 := TurnBlocks(col0, col1);
    ScatterRows(dst, g, cx, cy, rows0, src.Length);
    OneMoreBlock(g, r, src[..], before, was, dst[..], cx, cy, col0, rows0);
    was := dst[..];
    ScatterRows(dst, g, cx, cy + 1, rows1, src.Length);
    OneMoreBlock(g, r, src[..], before, was, dst[..], cx, cy + 1, col1, rows1);
  }

  lemma NextColumn(g: Geometry, r: Range, src: seq<u8>, before: seq<u8>, after: seq<u8>, cx: nat, cy: nat)
    requires Callable(g, r, |src|, |before|) && RotatesUpTo(g, r, src, before, after, cx, cy) && cy >= r.y1
    ensures RotatesUpTo(g, r, src, before, after, cx + 1, r.y0)
  {}

  /** `rotate_ccw_scalar` */
  method RotateCcwScalar(src: array<u8>, dst: array<u8>, g: Geometry, r: Range)
    requires src != dst && Callable(g, r, src.Length, dst.Length)
    modifies dst
    ensures Rotates(g, r, src[..], old(dst[..]), dst[..])
  {
    ghost var before := dst[..];
    var cx := r.x0;
    while cx < r.x1
      invariant cx >= r.x0
      invariant RotatesUpTo(g, r, src[..], before, dst[..], cx, r.y0)
    {
      var cy := r.y0;
      while cy < r.y1
        invariant cy >= r.y0
        invariant RotatesUpTo(g, r, src[..], before, dst[..], cx, cy)
      {
        RotateBlock(src, dst, g, cx, cy, r, before);
        cy := cy + 1;
      }
      NextColumn(g, r, src[..], before, dst[..], cx, cy);
      cx := cx + 1;
    }
  }

  /** `rotate_ccw_neon`: two blocks at a time, then an odd one. */
  method RotateCcwNeon(src: array<u8>, dst: array<u8>, g: Geometry, r: Range)
    requires src != dst && Callable(g, r, src.Length, dst.Length)
    modifies dst
    ensures Rotates(g, r, src[..], old(dst[..]), dst[..])
  {
    ghost var before := dst[..];
    var cx := r.x0;
    while cx < r.x1
      invariant cx >= r.x0
      invariant RotatesUpTo(g, r, src[..], before, dst[..], cx, r.y0)
    {
      var cy := r.y0;
      while cy + 2 <= r.y1
        invariant cy >= r.y0
        invariant RotatesUpTo(g, r, src[..], before, dst[..], cx, cy)
      {
        RotateTwoBlocks(src, dst, g, cx, cy, r, before);
        cy := cy + 2;
      }
      while cy < r.y1
        invariant cy >= r.y0
        invariant RotatesUpTo(g, r, src[..], before, dst[..], cx, cy)
      {
        RotateOddBlock(src, dst, g, cx, cy, r, before);
        cy := cy + 1;
      }
      NextColumn(g, r, src[..], before, dst[..], cx, cy);
      cx := cx + 1;
    }
  }

  /** `rotate_blocks` */
  method RotateBlocks(src: array<u8>, dst: array<u8>, g: Geometry, r: Range, simd: bool)
    requires src != dst && Callable(g, r, src.Length, dst.Length)
    modifies dst
    ensures Rotates(g, r, src[..], old(dst[..]), dst[..])
  {
    if simd {
      RotateCcwNeon(src, dst, g, r);
    } else {
      RotateCcwScalar(src, dst, g, r);
    }
  }
}
