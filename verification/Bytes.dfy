/** Bytes, frames and the display constants shared by the driver and the FPGA. */
module Bytes {

  datatype Option<+T> = None | Some(value: T)

  /** An unsigned 8-bit value. */
  type u8 = x: int | 0 <= x < 0x100

  type u16 = x: int | 0 <= x < 0x1_0000

  // kmod/display.h
  const HW_WIDTH := 280
  const HW_HEIGHT := 720
  const FB_SIZE := (HW_WIDTH / 8) * HW_HEIGHT
  const SPI_CHUNK_MAX := 4096
  // kmod/sender.h
  const SPI_BUF_SIZE := 32768

  /** A byte seen as eight wires. */
  function Bv(b: u8): bv8 {
    b as bv8
  }

  function Un(v: bv8): u8 {
    v as int
  }

  /** Bytes seen as wires. */
  function BvAll(s: seq<u8>): (r: seq<bv8>)
    ensures |r| == |s|
  {
    seq(|s|, i requires 0 <= i < |s| => Bv(s[i]))
  }

  function Min(a: nat, b: nat): nat {
    if a < b then a else b
  }

  /** The same value built one binary digit at a time. */
  function Digits(b: u8): bv8 {
    if b == 0 then 0 else (Digits(b / 2) << 1) | (if b % 2 == 1 then 1 else 0)
  }

  lemma NextDigit(v: bv8, d: bv8)
    requires v < 0x80 && d <= 1
    ensures Un((v << 1) | d) == 2 * Un(v) + Un(d)
  {}

  lemma {:induction false} UnDigits(b: u8)
    ensures Un(Digits(b)) == b
  {
    if b != 0 {
      UnDigits(b / 2);
      NextDigit(Digits(b / 2), if b % 2 == 1 then 1 else 0);
    }
  }

  lemma BvUn(v: bv8)
    ensures Bv(Un(v)) == v
  {}

  lemma UnBv(b: u8)
    ensures Un(Bv(b)) == b
  {
    UnDigits(b);
    BvUn(Digits(b));
  }

  lemma BvInjective(a: u8, b: u8)
    requires Bv(a) == Bv(b)
    ensures a == b
  {
    UnBv(a);
    UnBv(b);
  }

  /** The three-step bit reversal macro of kmod/bitrev.h. */
  function BitRev(v: bv8): bv8 {
    var x1 := ((v & 0xAA) >> 1) | ((v & 0x55) << 1);
    var x2 := ((x1 & 0xCC) >> 2) | ((x1 & 0x33) << 2);
    ((x2 & 0xF0) >> 4) | ((x2 & 0x0F) << 4)
  }

  /** Bit `k` of `v`, bit 0 being the least significant one. */
  predicate BitOf(v: bv8, k: nat)
    requires k < 8
  {
    v & (match k
         case 0 => 0x01 case 1 => 0x02 case 2 => 0x04 case 3 => 0x08
         case 4 => 0x10 case 5 => 0x20 case 6 => 0x40 case _ => 0x80) != 0
  }

  /** Binary digit `k` of a byte's value: its bit `k`. */
  predicate Digit(b: u8, k: nat) {
    if k == 0 then b % 2 == 1 else Digit(b / 2, k - 1)
  }

  lemma ShiftedBit(w: bv8, d: bv8, k: nat)
    requires w < 0x80 && d <= 1 && k < 8
    ensures BitOf((w << 1) | d, k) == if k == 0 then d == 1 else BitOf(w, k - 1)
  {}

  lemma BvDigits(b: u8)
    ensures Bv(b) == Digits(b)
  {
    UnDigits(b);
    BvUn(Digits(b));
  }

  lemma {:induction false} BitIsDigit(b: u8, k: nat)
    requires k < 8
    ensures BitOf(Bv(b), k) == Digit(b, k)
  {
    BvDigits(b);
    if b == 0 {
      ZeroDigit(k);
    } else {
      BvDigits(b / 2);
      HalfIsSmall(b / 2);
      ShiftedBit(Digits(b / 2), if b % 2 == 1 then 1 else 0, k);
      if k > 0 {
        BitIsDigit(b / 2, k - 1);
      }
    }
  }

  lemma {:induction false} ZeroDigit(k: nat)
    ensures !Digit(0, k)
  {
    if k > 0 {
      ZeroDigit(k - 1);
    }
  }

  lemma HalfIsSmall(b: u8)
    requires b < 0x80
    ensures Digits(b) < 0x80
  {
    UnDigits(b);
  }

  /** The macro is the wire crossing of fpga/reverse.v: bit k becomes bit 7 - k. */
  lemma BitRevCrossesWires(v: bv8, k: nat)
    requires k < 8
    ensures BitOf(BitRev(v), k) == BitOf(v, 7 - k)
  {}

  lemma BitRevTwice(v: bv8)
    ensures BitRev(BitRev(v)) == v
  {}

  /** Bit reversal of a byte. */
  function Rev8(b: u8): u8 {
    Un(BitRev(Bv(b)))
  }

  lemma Rev8Twice(b: u8)
    ensures Rev8(Rev8(b)) == b
  {
    BvUn(BitRev(Bv(b)));
    BitRevTwice(Bv(b));
    UnBv(b);
  }

  /** How the display sees a byte: reversed when the bitrev mode is on. */
  function Flip(rev: bool, b: u8): u8 {
    if rev then Rev8(b) else b
  }

  /** How the display sees a whole buffer. */
  function View(rev: bool, s: seq<u8>): (r: seq<u8>)
    ensures |r| == |s|
  {
    seq(|s|, i requires 0 <= i < |s| => Flip(rev, s[i]))
  }

  /** A frame of zeros, as `memset` leaves it. */
  function Zeros(): (f: seq<u8>)
    ensures |f| == FB_SIZE && forall i | 0 <= i < FB_SIZE :: f[i] == 0
  {
    seq(FB_SIZE, _ => 0)
  }

  lemma Rev8Zero()
    ensures Rev8(0) == 0
  {
    assert Bv(0) == 0;
  }

  /** Reversal loses nothing. */
  lemma FlipInjective(rev: bool, a: u8, b: u8)
    requires Flip(rev, a) == Flip(rev, b)
    ensures a == b
  {
    Rev8Twice(a);
    Rev8Twice(b);
  }
}
