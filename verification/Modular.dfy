/** Division with a variable divisor, for pointers that wrap and for rows of pixels. */
module Modular {

  lemma MulGap(m: nat, p: int, q: int)
    requires p < q
    ensures m * p + m <= m * q
  {
    assert m * q == m * p + m * (q - p);
    assert m * (q - p) == m + m * (q - p - 1);
  }

  lemma MulMono(a: nat, b: nat, c: nat, d: nat)
    requires a <= b && c <= d
    ensures a * c <= b * d
  {
    assert b * d == a * c + a * (d - c) + (b - a) * d;
    assert a * (d - c) >= 0 && (b - a) * d >= 0;
  }

  lemma ModUnique(x: int, m: int, q: int, r: int)
    requires 0 <= r < m && x == m * q + r
    ensures x % m == r && x / m == q
  {
    assert x == m * (x / m) + x % m;
    if q < x / m {
      MulGap(m, q, x / m);
    } else if x / m < q {
      MulGap(m, x / m, q);
    }
  }

  lemma ModAdd(x: nat, d: nat, m: nat)
    requires d <= m && 0 < m
    ensures (x + d) % m == (if x % m + d < m then x % m + d else x % m + d - m)
    ensures (x + d) / m == (if x % m + d < m then x / m else x / m + 1)
  {
    if x % m + d < m {
      ModUnique(x + d, m, x / m, x % m + d);
    } else {
      assert m * (x / m + 1) == m * (x / m) + m;
      ModUnique(x + d, m, x / m + 1, x % m + d - m);
    }
  }

  /** Fewer than `m` steps apart, two counts have different residues. */
  lemma ModApart(x: nat, y: nat, m: nat)
    requires x < y < x + m
    ensures x % m != y % m
  {
    ModAdd(x, y - x, m);
  }
}
