/**
 * The eight-bytes-at-a-time primitives of kmod/update.c: little-endian 64-bit loads, and the
 * LZB and TZB macros, which count zero bytes with the count-trailing-zeros and
 * count-leading-zeros builtins.
 */
module Words {
  import opened Bytes

  /** The value of a little-endian 64-bit load of eight bytes. */
  function Pack(b: seq<bv8>): bv64
    requires |b| == 8
  {
    b[0] as bv64
    | ((b[1] as bv64) << 8)
    | ((b[2] as bv64) << 16)
    | ((b[3] as bv64) << 24)
    | ((b[4] as bv64) << 32)
    | ((b[5] as bv64) << 40)
    | ((b[6] as bv64) << 48)
    | ((b[7] as bv64) << 56)
  }

  /** `__builtin_ctzll`: the number of zero bits below the lowest set bit. */
  function Ctz(w: bv64): nat
    requires w != 0
    decreases w
  {
    if w & 0x01 != 0 then 0 else if w & 0x02 != 0 then 1
    else if w & 0x04 != 0 then 2 else if w & 0x08 != 0 then 3
    else if w & 0x10 != 0 then 4 else if w & 0x20 != 0 then 5
    else if w & 0x40 != 0 then 6 else if w & 0x80 != 0 then 7
    else 8 + Ctz(w >> 8)
  }

  /** `__builtin_clzll`: the number of zero bits above the highest set bit. */
  function Clz(w: bv64): nat
    requires w != 0
    decreases !w
  {
    var top := w >> 56;
    if top & 0x80 != 0 then 0 else if top & 0x40 != 0 then 1
    else if top & 0x20 != 0 then 2 else if top & 0x10 != 0 then 3
    else if top & 0x08 != 0 then 4 else if top & 0x04 != 0 then 5
    else if top & 0x02 != 0 then 6 else if top & 0x01 != 0 then 7
    else 8 + Clz(w << 8)
  }

  /** Zero bytes at the low addresses of a word. */
  function LZB(w: bv64): nat
    requires w != 0
  {
    Ctz(w) / 8
  }

  /** Zero bytes at the high addresses of a word. */
  function TZB(w: bv64): nat
    requires w != 0
  {
    Clz(w) / 8
  }

  /** Eight copies of a byte. */
  function Spread(b: u8): bv64 {
    (Bv(b) as bv64) * 0x0101_0101_0101_0101
  }

  /** The byte at the highest address of a word. */
  function LastByte(w: bv64): u8 {
    Un(((w >> 56) & 0xFF) as bv8)
  }

  /** Byte `j` of a word in address order. */
  function ByteAt(w: bv64, j: nat): bv64
    requires j < 8
  {
    match j
    case 0 => w & 0xFF
    case 1 => (w >> 8) & 0xFF
    case 2 => (w >> 16) & 0xFF
    case 3 => (w >> 24) & 0xFF
    case 4 => (w >> 32) & 0xFF
    case 5 => (w >> 40) & 0xFF
    case 6 => (w >> 48) & 0xFF
    case _ => w >> 56
  }

  lemma Lzb8(w: bv64)
    requires w != 0
    ensures w & 0xFF != 0 ==> LZB(w) == 0
    ensures w & 0xFF == 0 ==> w >> 8 != 0 && LZB(w) == 1 + LZB(w >> 8)
  {}

  lemma Tzb8(w: bv64)
    requires w != 0
    ensures w >> 56 != 0 ==> TZB(w) == 0
    ensures w >> 56 == 0 ==> w << 8 != 0 && TZB(w) == 1 + TZB(w << 8)
  {}

  lemma NonzeroByte(w: bv64)
    requires w != 0
    ensures exists j | 0 <= j < 8 :: ByteAt(w, j) != 0
  {
    if forall j | 0 <= j < 8 :: ByteAt(w, j) == 0 {
      assert ByteAt(w, 0) == 0 && ByteAt(w, 1) == 0 && ByteAt(w, 2) == 0 && ByteAt(w, 3) == 0;
      assert ByteAt(w, 4) == 0 && ByteAt(w, 5) == 0 && ByteAt(w, 6) == 0 && ByteAt(w, 7) == 0;
    }
  }

  lemma ShiftDown(w: bv64, j: nat)
    requires j < 8
    ensures ByteAt(w >> 8, j) == if j == 7 then 0 else ByteAt(w, j + 1)
  {}

  lemma ShiftUp(w: bv64, j: nat)
    requires j < 8
    ensures ByteAt(w << 8, j) == if j == 0 then 0 else ByteAt(w, j - 1)
  {}

  /** LZB is the index of the first nonzero byte. `n` bounds the bytes still to look at. */
  lemma {:induction false} LzbIsFirst(w: bv64, n: nat)
    requires w != 0 && n <= 8
    requires forall j | n <= j < 8 :: ByteAt(w, j) == 0
    ensures LZB(w) < n
    ensures ByteAt(w, LZB(w)) != 0
    ensures forall j | 0 <= j < LZB(w) :: ByteAt(w, j) == 0
    decreases n
  {
    Lzb8(w);
    NonzeroByte(w);
    assert ByteAt(w, 0) == w & 0xFF;
    if w & 0xFF == 0 {
      forall j {:trigger ByteAt(w >> 8, j)} | 0 <= j < 8
        ensures ByteAt(w >> 8, j) == if j == 7 then 0 else ByteAt(w, j + 1)
      {
        ShiftDown(w, j);
      }
      LzbIsFirst(w >> 8, n - 1);
      forall j | 0 <= j < LZB(w)
        ensures ByteAt(w, j) == 0
      {
        if j > 0 {
          ShiftDown(w, j - 1);
        }
      }
    }
  }

  /** TZB is the distance of the last nonzero byte from the end. */
  lemma {:induction false} TzbIsLast(w: bv64, n: nat)
    requires w != 0 && n <= 8
    requires forall j | 0 <= j < 8 - n :: ByteAt(w, j) == 0
    ensures TZB(w) < n
    ensures ByteAt(w, 7 - TZB(w)) != 0
    ensures forall j | 7 - TZB(w) < j < 8 :: ByteAt(w, j) == 0
    decreases n
  {
    Tzb8(w);
    NonzeroByte(w);
    assert ByteAt(w, 7) == w >> 56;
    if w >> 56 == 0 {
      forall j {:trigger ByteAt(w << 8, j)} | 0 <= j < 8
        ensures ByteAt(w << 8, j) == if j == 0 then 0 else ByteAt(w, j - 1)
      {
        ShiftUp(w, j);
      }
      TzbIsLast(w << 8, n - 1);
      forall j | 7 - TZB(w) < j < 8
        ensures ByteAt(w, j) == 0
      {
        if j < 7 {
          ShiftUp(w, j + 1);
        }
      }
    }
  }

  lemma PackByte(a: seq<bv8>, j: nat)
    requires |a| == 8 && j < 8
    ensures ByteAt(Pack(a), j) == a[j] as bv64
  {
    match j
    case 0 => case 1 => case 2 => case 3 => case 4 => case 5 => case 6 => case _ =>
  }

  lemma ZeroWord(x: bv64)
    requires forall j {:trigger ByteAt(x, j)} | 0 <= j < 8 :: ByteAt(x, j) == 0
    ensures x == 0
  {
    if x != 0 {
      NonzeroByte(x);
    }
  }

  /** LZB and TZB of a word in terms of its bytes. */
  lemma ZeroBytesOfWord(c: seq<bv8>)
    requires |c| == 8
    ensures Pack(c) == 0 <==> forall j | 0 <= j < 8 :: c[j] == 0
    ensures Pack(c) != 0 ==>
              var l, t := LZB(Pack(c)), TZB(Pack(c));
              && l + t < 8 && c[l] != 0 && c[7 - t] != 0
              && forall j | 0 <= j < 8 && (j < l || 7 - t < j) :: c[j] == 0
  {
    var x := Pack(c);
    forall j | 0 <= j < 8
      ensures ByteAt(x, j) == 0 <==> c[j] == 0
    {
      PackByte(c, j);
    }
    if x == 0 {
      forall j | 0 <= j < 8
        ensures c[j] == 0
      {
        ZeroByte(j);
      }
    } else {
      LzbIsFirst(x, 8);
      TzbIsLast(x, 8);
    }
    if forall j | 0 <= j < 8 :: c[j] == 0 {
      ZeroWord(x);
    }
  }

  lemma ZeroByte(j: nat)
    requires j < 8
    ensures ByteAt(0, j) == 0
  {}

  /** Exclusive-or, byte by byte. */
  function Xor(a: seq<bv8>, b: seq<bv8>): seq<bv8>
    requires |a| == |b|
  {
    seq(|a|, i requires 0 <= i < |a| => a[i] ^ b[i])
  }

  lemma XorPack(a: seq<bv8>, b: seq<bv8>)
    requires |a| == 8 && |b| == 8
    ensures Pack(a) ^ Pack(b) == Pack(Xor(a, b))
  {}

  lemma XorIsZero(v: bv8, w: bv8)
    ensures v ^ w == 0 <==> v == w
  {}

  lemma XorAgrees(v: seq<bv8>, w: seq<bv8>, j: nat)
    requires |v| == |w| && j < |v|
    ensures Xor(v, w)[j] == 0 <==> v[j] == w[j]
  {
    XorIsZero(v[j], w[j]);
  }

  lemma WiresAgree(a: seq<u8>, b: seq<u8>, j: nat)
    requires |a| == |b| && j < |a|
    ensures BvAll(a)[j] == BvAll(b)[j] <==> a[j] == b[j]
  {
    if Bv(a[j]) == Bv(b[j]) {
      BvInjective(a[j], b[j]);
    }
  }

  /**
   * Zero bytes of `Pack(c)` are the positions where `a` and `b` agree, so LZB and TZB count the
   * equal bytes before the first difference and after the last one.
   */
  lemma WordDifferences(c: seq<bv8>, a: seq<u8>, b: seq<u8>)
    requires |c| == 8 && |a| == 8 && |b| == 8
    requires forall j | 0 <= j < 8 :: c[j] == 0 <==> a[j] == b[j]
    ensures Pack(c) == 0 <==> a == b
    ensures a != b ==>
              var l, t := LZB(Pack(c)), TZB(Pack(c));
              && l + t < 8 && a[l] != b[l] && a[7 - t] != b[7 - t]
              && forall j | 0 <= j < 8 && (j < l || 7 - t < j) :: a[j] == b[j]
  {
    ZeroBytesOfWord(c);
  }

  /** The exclusive-or of two loads is the word of some bytes that vanish where the buffers agree. */
  lemma XorOfLoads(a: seq<u8>, b: seq<u8>) returns (c: seq<bv8>)
    requires |a| == 8 && |b| == 8
    ensures |c| == 8 && Pack(c) == Pack(BvAll(a)) ^ Pack(BvAll(b))
    ensures forall j | 0 <= j < 8 :: c[j] == 0 <==> a[j] == b[j]
  {
    var v, w := BvAll(a), BvAll(b);
    c := Xor(v, w);
    XorPack(v, w);
    forall j | 0 <= j < 8
      ensures c[j] == 0 <==> a[j] == b[j]
    {
      XorAgrees(v, w, j);
      WiresAgree(a, b, j);
    }
  }

  /**
   * Is the word zero, and if not, what are its LZB and TZB? `a` and `b` agree where the word, whose
   * bytes are `c`, is zero.
   */
  method Inspect(xor: bv64, ghost c: seq<bv8>, ghost a: seq<u8>, ghost b: seq<u8>)
    returns (zero: bool, lzb: nat, tzb: nat)
    requires |c| == 8 && xor == Pack(c) && |a| == 8 && |b| == 8
    requires forall j | 0 <= j < 8 :: c[j] == 0 <==> a[j] == b[j]
    ensures zero <==> a == b
    ensures !zero ==>
              && lzb + tzb < 8 && a[lzb] != b[lzb] && a[7 - tzb] != b[7 - tzb]
              && forall j | 0 <= j < 8 && (j < lzb || 7 - tzb < j) :: a[j] == b[j]
  {
    WordDifferences(c, a, b);
    if xor == 0 {
      zero, lzb, tzb := true, 0, 0;
    } else {
      zero, lzb, tzb := false, LZB(xor), TZB(xor);
    }
  }

  /** The exclusive-or of two loads. */
  method XorLoads(a: seq<u8>, b: seq<u8>) returns (zero: bool, lzb: nat, tzb: nat)
    requires |a| == 8 && |b| == 8
    ensures zero <==> a == b
    ensures !zero ==>
              && lzb + tzb < 8 && a[lzb] != b[lzb] && a[7 - tzb] != b[7 - tzb]
              && forall j | 0 <= j < 8 && (j < lzb || 7 - tzb < j) :: a[j] == b[j]
  {
    ghost var c := XorOfLoads(a, b);
    zero, lzb, tzb := Inspect(Pack(BvAll(a)) ^ Pack(BvAll(b)), c, a, b);
  }

  /** The last byte of a word, and eight copies of it, are what their names say. */
  lemma SpreadIsPack(b: u8)
    ensures Spread(b) == Pack(BvAll([b, b, b, b, b, b, b, b]))
  {
    SpreadBv(Bv(b));
  }

  lemma SpreadBv(v: bv8)
    ensures (v as bv64) * 0x0101_0101_0101_0101 == Pack([v, v, v, v, v, v, v, v])
  {}

  lemma LastByteIsLast(a: seq<u8>)
    requires |a| == 8
    ensures LastByte(Pack(BvAll(a))) == a[7]
  {
    UnBv(a[7]);
  }

  method LastByteOf(a: seq<u8>) returns (b: u8)
    requires |a| == 8
    ensures b == a[7]
  {
    LastByteIsLast(a);
    b := LastByte(Pack(BvAll(a)));
  }

  /** The exclusive-or of a load with eight copies of `b`. */
  method XorSpread(a: seq<u8>, b: u8) returns (zero: bool, lzb: nat, tzb: nat)
    requires |a| == 8
    ensures zero <==> forall j | 0 <= j < 8 :: a[j] == b
    ensures !zero ==>
              && lzb + tzb < 8 && a[lzb] != b && a[7 - tzb] != b
              && forall j | 0 <= j < 8 && (j < lzb || 7 - tzb < j) :: a[j] == b
  {
    ghost var copies := [b, b, b, b, b, b, b, b];
    SpreadIsPack(b);
    ghost var c := XorOfLoads(a, copies);
    zero, lzb, tzb := Inspect(Pack(BvAll(a)) ^ Spread(b), c, a, copies);
  }
}
