/**
 * Facts about multiplication, division and remainder that the row-major
 * index arithmetic of the image transforms relies on.
 */
module Mul {

  /** `a <= b` is kept when both sides are scaled by the same `c`. */
  lemma MulLeq(a: nat, b: nat, c: nat)
    requires a <= b
    ensures a * c <= b * c
  {
  }

  /** Pixel (x, y) of a `w` by `h` image has a row-major index below `w * h`. */
  lemma RowMajorBound(w: nat, h: nat, x: nat, y: nat)
    requires x < w && y < h
    ensures y * w + x < w * h
  {
    MulLeq(y + 1, h, w);
  }

  /** An index below `w * h`, split by `h`, gives a quotient below `w`. */
  lemma DivModBounds(q: nat, h: nat, w: nat)
    requires q < w * h
    ensures h > 0 && q / h < w && q % h < h
  {
    if h > 0 && q / h >= w {
      MulLeq(w, q / h, h);
    }
  }

  /** Quotient and remainder are the only `a`, `b` with `n == a * m + b` and `b < m`. */
  lemma DivModUnique(n: int, m: nat, a: int, b: nat)
    requires b < m && n == a * m + b
    ensures n / m == a && n % m == b
  {
    var q, r := n / m, n % m;
    assert n == q * m + r;
    assert (q - a) * m == b - r;
    if q > a {
      MulLeq(1, q - a, m);
    } else if q < a {
      MulLeq(1, a - q, m);
    }
  }

  /** `(a * w)` written out for `a = h - 1 - y`, the shape of the 180-degree index. */
  lemma Distribute(a: int, w: int, y: int)
    ensures a * w + y * w == (a + y) * w
  {
  }

  /** A buffer of `n` four-byte pixels has a length divisible by four. */
  lemma QuadLength(n: nat)
    ensures (n * 4) % 4 == 0 && (n * 4) / 4 == n
  {
    DivModUnique(n * 4, 4, n, 0);
  }
}
