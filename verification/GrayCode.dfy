/**
 * Gray-coded pointers: the conversions of fpga/w-ptr-full.v, fpga/r-ptr-empty.v and fpga/g2b.v for
 * pointers of any width.
 */
module GrayCode {

  function Pow2(n: nat): (p: nat)
    ensures p > 0
  {
    if n == 0 then 1 else 2 * Pow2(n - 1)
  }

  /** Bitwise exclusive-or. */
  function Xor(a: nat, b: nat): nat
    decreases a + b
  {
    if a == 0 && b == 0 then 0 else 2 * Xor(a / 2, b / 2) + Odd(a % 2 != b % 2)
  }

  function Odd(p: bool): nat {
    if p then 1 else 0
  }

  /** Bit `k` of `n`. */
  predicate Bit(n: nat, k: nat) {
    if k == 0 then n % 2 == 1 else Bit(n / 2, k - 1)
  }

  /** Binary to Gray: `(b >> 1) ^ b`. */
  function Gray(b: nat): nat {
    Xor(b / 2, b)
  }

  /** The exclusive-or of all bits. */
  predicate Parity(g: nat) {
    g != 0 && (g % 2 == 1) != Parity(g / 2)
  }

  /** Gray to binary: each bit is the exclusive-or of that bit of `g` and all higher ones. */
  function Ungray(g: nat): nat {
    if g == 0 then 0 else 2 * Ungray(g / 2) + Odd(Parity(g))
  }

  /** The Gray code one bit at a time. */
  lemma GrayStep(b: nat)
    ensures Gray(b) / 2 == Gray(b / 2) && Gray(b) % 2 == Odd(b / 2 % 2 != b % 2)
  {}

  lemma {:induction false} ParityOfGray(b: nat)
    ensures Parity(Gray(b)) == (b % 2 == 1)
  {
    if b > 0 {
      GrayStep(b);
      ParityOfGray(b / 2);
      assert Gray(b) == 0 ==> !Parity(Gray(b)) && !Parity(Gray(b) / 2);
    }
  }

  /** The two conversions are inverse. */
  lemma {:induction false} UngrayGray(b: nat)
    ensures Ungray(Gray(b)) == b
  {
    if b > 0 {
      GrayStep(b);
      ParityOfGray(b);
      UngrayGray(b / 2);
    }
  }

  /** The value without its `i` lowest bits. */
  function Shift(g: nat, i: nat): nat {
    if i == 0 then g else Shift(g / 2, i - 1)
  }

  /** Bit `i` of the decoded value is the exclusive-or of bits `i` and up, as g2b.v wires it. */
  lemma {:induction false} UngrayBits(g: nat, i: nat)
    ensures Bit(Ungray(g), i) <==> Parity(Shift(g, i))
  {
    assert g == 0 ==> g / 2 == 0;
    if i > 0 {
      UngrayBits(g / 2, i - 1);
    }
  }

  lemma GrayInjective(a: nat, b: nat)
    requires Gray(a) == Gray(b)
    ensures a == b
  {
    UngrayGray(a);
    UngrayGray(b);
  }

  // ---- Neighbouring codes ----

  /** Exactly one bit differs. */
  ghost predicate OneBitApart(a: nat, b: nat)
    decreases a + b
  {
    && a + b > 0
    && ((a / 2 == b / 2 && a % 2 != b % 2) || (a % 2 == b % 2 && OneBitApart(a / 2, b / 2)))
  }

  lemma {:induction false} OneBitSymmetric(a: nat, b: nat)
    requires OneBitApart(a, b)
    ensures OneBitApart(b, a)
    decreases a + b
  {
    if a / 2 != b / 2 {
      OneBitSymmetric(a / 2, b / 2);
    }
  }

  lemma OneBitStep(a: nat, b: nat)
    requires (a / 2 == b / 2 && a % 2 != b % 2) || (a % 2 == b % 2 && OneBitApart(a / 2, b / 2))
    ensures OneBitApart(a, b)
  {}

  /** Codes of consecutive numbers differ in one bit. */
  lemma {:induction false} GrayAdjacent(b: nat)
    ensures OneBitApart(Gray(b), Gray(b + 1))
  {
    var h := b / 2;
    var n := (b + 1) / 2;
    GrayStep(b);
    GrayStep(b + 1);
    if b % 2 == 0 {
      assert n == h && (b + 1) % 2 == 1;
    } else {
      assert n == h + 1 && (b + 1) % 2 == 0 && h % 2 != n % 2;
      GrayAdjacent(h);
    }
    OneBitStep(Gray(b), Gray(b + 1));
  }

  /** So do the codes of the last pointer value and of zero. */
  lemma {:induction false} GrayWraps(w: nat)
    requires w > 0
    ensures Gray(Pow2(w) - 1) == Pow2(w - 1)
    ensures OneBitApart(Gray(Pow2(w) - 1), Gray(0))
  {
    var b := Pow2(w) - 1;
    GrayStep(b);
    if w > 1 {
      assert b / 2 == Pow2(w - 1) - 1;
      GrayWraps(w - 1);
    } else {
      GrayStep(0);
    }
  }

  /** A sample of lines that are changing from `a` to `b`: each line gives its old or its new value. */
  ghost predicate Mix(v: nat, a: nat, b: nat)
    decreases v + a + b
  {
    v + a + b == 0 || ((v % 2 == a % 2 || v % 2 == b % 2) && Mix(v / 2, a / 2, b / 2))
  }

  lemma {:induction false} MixOfOne(v: nat, a: nat)
    requires Mix(v, a, a)
    ensures v == a
    decreases v + a
  {
    if v + a > 0 {
      MixOfOne(v / 2, a / 2);
    }
  }

  /** A synchroniser that samples a changing Gray pointer gets the old or the new pointer. */
  lemma {:induction false} SampleIsOldOrNew(v: nat, a: nat, b: nat)
    requires Mix(v, a, b) && (a == b || OneBitApart(a, b))
    ensures v == a || v == b
    decreases v + a + b
  {
    if v + a + b > 0 {
      if a / 2 == b / 2 {
        MixOfOne(v / 2, a / 2);
      } else {
        SampleIsOldOrNew(v / 2, a / 2, b / 2);
      }
    }
  }

  // ---- The full test ----

  /** Pointers of width `a + 1` half a turn apart. */
  function Opposite(a: nat, r: nat): nat {
    if r < Pow2(a) then r + Pow2(a) else r - Pow2(a)
  }

  /** `w_full_val`: the two top bits differ and all others agree. */
  predicate FullTest(a: nat, wGray: nat, rGray: nat)
    requires a > 0
  {
    && Bit(wGray, a) != Bit(rGray, a)
    && Bit(wGray, a - 1) != Bit(rGray, a - 1)
    && forall k | 0 <= k < a - 1 :: Bit(wGray, k) == Bit(rGray, k)
  }

  lemma {:induction false} GrayBound(b: nat, w: nat)
    requires b < Pow2(w)
    ensures Gray(b) < Pow2(w)
    decreases w
  {
    GrayStep(b);
    if w > 0 {
      GrayBound(b / 2, w - 1);
    }
  }

  lemma {:induction false} SameBits(x: nat, y: nat, w: nat)
    requires x < Pow2(w) && y < Pow2(w) && forall k | 0 <= k < w :: Bit(x, k) == Bit(y, k)
    ensures x == y
    decreases w
  {
    if w > 0 {
      assert Bit(x, 0) == Bit(y, 0);
      forall k | 0 <= k < w - 1
        ensures Bit(x / 2, k) == Bit(y / 2, k)
      {
        assert Bit(x, k + 1) == Bit(y, k + 1);
      }
      SameBits(x / 2, y / 2, w - 1);
    }
  }

  lemma FullTestOfWidthTwo(r: nat)
    requires r < 4
    ensures FullTest(1, Gray(Opposite(1, r)), Gray(r))
  {
    assert Pow2(0) == 1 && Pow2(1) == 2;
    assert Gray(0) == 0 && Gray(1) == 1;
    GrayStep(2);
    GrayStep(3);
    assert Gray(2) == 3 && Gray(3) == 2;
  }

  lemma FullTestShifts(a: nat, x: nat, y: nat)
    requires a > 0 && FullTest(a, x / 2, y / 2) && x % 2 == y % 2
    ensures FullTest(a + 1, x, y)
  {
    forall k | 0 <= k < a
      ensures Bit(x, k) == Bit(y, k)
    {
      if k > 0 {
        assert Bit(x / 2, k - 1) == Bit(y / 2, k - 1);
      }
    }
  }

  lemma FullTestDoubles(a: nat, w: nat, r: nat)
    requires a > 0 && FullTest(a, Gray(w / 2), Gray(r / 2))
    requires w % 2 == r % 2 && w / 2 % 2 == r / 2 % 2
    ensures FullTest(a + 1, Gray(w), Gray(r))
  {
    GrayStep(w);
    GrayStep(r);
    FullTestShifts(a, Gray(w), Gray(r));
  }

  lemma HalfOfOpposite(a: nat, r: nat)
    requires a > 0 && r < Pow2(a + 1)
    ensures Opposite(a, r) < Pow2(a + 1)
    ensures r / 2 < Pow2(a) && Opposite(a, r) / 2 == Opposite(a - 1, r / 2) && Opposite(a, r) % 2 == r % 2
  {}

  /** Half a turn flips exactly the two top bits of the code. */
  lemma {:induction false} OppositeIsFull(a: nat, r: nat)
    requires a > 0 && r < Pow2(a + 1)
    ensures Opposite(a, r) < Pow2(a + 1)
    ensures FullTest(a, Gray(Opposite(a, r)), Gray(r))
    decreases a
  {
    HalfOfOpposite(a, r);
    if a == 1 {
      assert Pow2(1) == 2 && Pow2(2) == 4;
      FullTestOfWidthTwo(r);
    } else {
      HalfOfOpposite(a - 1, r / 2);
      OppositeIsFull(a - 1, r / 2);
      FullTestDoubles(a - 1, Opposite(a, r), r);
    }
  }

  /** The full test on Gray codes means that the pointers are exactly half a turn apart. */
  lemma FullMeansOpposite(a: nat, w: nat, r: nat)
    requires a > 0 && w < Pow2(a + 1) && r < Pow2(a + 1)
    ensures FullTest(a, Gray(w), Gray(r)) <==> w == Opposite(a, r)
  {
    var o := Opposite(a, r);
    OppositeIsFull(a, r);
    if FullTest(a, Gray(w), Gray(r)) {
      GrayBound(w, a + 1);
      GrayBound(o, a + 1);
      forall k | 0 <= k < a + 1
        ensures Bit(Gray(w), k) == Bit(Gray(o), k)
      {
        if k < a - 1 {
          assert Bit(Gray(w), k) == Bit(Gray(r), k) == Bit(Gray(o), k);
        }
      }
      SameBits(Gray(w), Gray(o), a + 1);
      GrayInjective(w, o);
    }
  }
}
