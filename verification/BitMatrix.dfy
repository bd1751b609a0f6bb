/**
 * The 8x8 bit blocks of kmod/rotation_ops.h: gathering eight bytes into a word, transposing the
 * word by three delta swaps, and taking it apart again; and the same for two NEON lanes at once.
 */
module BitMatrix {
  import opened Bytes

  // ---- Words as matrices ----

  /** Row `r`, column `c`: each byte is a row, the top byte row 0, and the top bit of a byte column 0. */
  predicate Cell(x: bv64, r: bv64, c: bv64)
    requires r < 8 && c < 8
  {
    (x >> (63 - 8 * r - c)) & 1 == 1
  }

  /** The delta swaps of `transpose8x8_rot`: bits under a mask change places with bits further up. */
  function Swap28(x: bv64): bv64 {
    var t := (x ^ (x >> 28)) & 0x0000_0000_F0F0_F0F0;
    x ^ t ^ (t << 28)
  }

  function Swap14(x: bv64): bv64 {
    var t := (x ^ (x >> 14)) & 0x0000_CCCC_0000_CCCC;
    x ^ t ^ (t << 14)
  }

  function Swap7(x: bv64): bv64 {
    var t := (x ^ (x >> 7)) & 0x00AA_00AA_00AA_00AA;
    x ^ t ^ (t << 7)
  }

  /** `transpose8x8_rot` */
  function Transpose8x8(x: bv64): bv64 {
    Swap7(Swap14(Swap28(x)))
  }

  /** The three delta swaps are the transpose, on every word. */
  lemma TransposeCells(x: bv64, r: bv64, c: bv64)
    requires r < 8 && c < 8
    ensures Cell(Transpose8x8(x), r, c) == Cell(x, c, r)
  {}

  /** `__builtin_bswap64` */
  function Bswap64(x: bv64): bv64 {
    (x >> 56) | ((x >> 40) & 0xFF00) | ((x >> 24) & 0xFF_0000) | ((x >> 8) & 0xFF00_0000)
    | ((x << 8) & 0xFF_0000_0000) | ((x << 24) & 0xFF00_0000_0000) | ((x << 40) & 0xFF_0000_0000_0000) | (x << 56)
  }

  /** Eight bytes on top of each other, the first in the top byte. */
  function Stack(q: seq<bv8>): bv64
    requires |q| == 8
  {
    ((q[0] as bv64) << 56) | ((q[1] as bv64) << 48) | ((q[2] as bv64) << 40) | ((q[3] as bv64) << 32)
    | ((q[4] as bv64) << 24) | ((q[5] as bv64) << 16) | ((q[6] as bv64) << 8) | (q[7] as bv64)
  }

  /** `gather8_rot` of eight bytes already fetched: each reversed, the first on top. */
  function Gather8(p: seq<bv8>): bv64
    requires |p| == 8
  {
    Stack(seq(8, i requires 0 <= i < 8 => BitRev(p[i])))
  }

  /** The byte that `scatter8_rot` stores in place `k`. */
  function Scattered(x: bv64, k: nat): bv8
    requires k < 8
  {
    match k
    case 0 => ((x >> 56) & 0xFF) as bv8
    case 1 => ((x >> 48) & 0xFF) as bv8
    case 2 => ((x >> 40) & 0xFF) as bv8
    case 3 => ((x >> 32) & 0xFF) as bv8
    case 4 => ((x >> 24) & 0xFF) as bv8
    case 5 => ((x >> 16) & 0xFF) as bv8
    case 6 => ((x >> 8) & 0xFF) as bv8
    case _ => (x & 0xFF) as bv8
  }

  // ---- One block ----

  /** Indices below eight as they appear in shift amounts. */
  function Ix(k: nat): (b: bv64)
    requires k < 8
    ensures b < 8
  {
    match k case 0 => 0 case 1 => 1 case 2 => 2 case 3 => 3 case 4 => 4 case 5 => 5 case 6 => 6 case _ => 7
  }

  lemma StackRow(q: seq<bv8>, r: nat)
    requires |q| == 8 && r < 8
    ensures Scattered(Stack(q), r) == q[r]
  {}

  lemma GatheredRow(p: seq<bv8>, r: nat)
    requires |p| == 8 && r < 8
    ensures Scattered(Gather8(p), r) == BitRev(p[r])
  {
    StackRow(seq(8, i requires 0 <= i < 8 => BitRev(p[i])), r);
  }

  /** The cells of a word, read from its bytes. */
  lemma ScatterCells(x: bv64, k: nat, c: nat)
    requires k < 8 && c < 8
    ensures Cell(x, Ix(k), Ix(c)) == BitOf(Scattered(x, k), 7 - c)
  {}

  function Rotated(x: bv64): bv64 {
    Bswap64(Transpose8x8(x))
  }

  lemma RotatedCells(x: bv64, r: bv64, c: bv64)
    requires r < 8 && c < 8
    ensures Cell(Rotated(x), r, c) == Cell(x, c, 7 - r)
  {}

  lemma RotatedRows(x: bv64, y: bv64, k: nat, i: nat)
    requires k < 8 && i < 8 && Cell(y, Ix(k), Ix(i)) == Cell(x, Ix(i), 7 - Ix(k))
    ensures BitOf(Scattered(y, k), 7 - i) == BitOf(Scattered(x, i), k)
  {
    ScatterCells(y, k, i);
    ScatterCells(x, i, 7 - k);
    assert Ix(7 - k) == 7 - Ix(k);
  }

  /** Byte `k` of a rotated block. */
  function BlockByte(p: seq<bv8>, k: nat): bv8
    requires |p| == 8 && k < 8
  {
    Scattered(Rotated(Gather8(p)), k)
  }

  /**
   * A quarter turn counter-clockwise: the pixel in column `7 - k` (least significant bit first) of
   * source row `i` goes to column `i` (most significant bit first) of destination row `k`.
   */
  lemma BlockPixels(p: seq<bv8>, k: nat, i: nat)
    requires |p| == 8 && k < 8 && i < 8
    ensures BitOf(BlockByte(p, k), 7 - i) == BitOf(p[i], 7 - k)
  {
    var x := Gather8(p);
    RotatedCells(x, Ix(k), Ix(i));
    RotatedRows(x, Rotated(x), k, i);
    GatheredRow(p, i);
    BitRevCrossesWires(p[i], k);
  }

  // ---- Two NEON lanes ----

  /** `vrev64`: the bytes of a lane in the opposite order. */
  function Vrev64(x: bv64): bv64 {
    Stack([Scattered(x, 7), Scattered(x, 6), Scattered(x, 5), Scattered(x, 4),
           Scattered(x, 3), Scattered(x, 2), Scattered(x, 1), Scattered(x, 0)])
  }

  lemma RevIsSwap(x: bv64)
    ensures Vrev64(x) == Bswap64(x)
  {}

  /**
   * The vector code between gathering and scattering: each vector instruction does to both lanes
   * what the scalar code does to its one word; only the byte reversal is a different instruction.
   */
  method NeonRotate(a: bv64, b: bv64) returns (lo: bv64, hi: bv64)
    ensures lo == Rotated(a) && hi == Rotated(b)
  {
    var x0, x1 := Swap28(a), Swap28(b);
    x0, x1 := Swap14(x0), Swap14(x1);
    x0, x1 := Swap7(x0), Swap7(x1);
    RevIsSwap(x0);
    RevIsSwap(x1);
    lo, hi := Vrev64(x0), Vrev64(x1);
  }
}
