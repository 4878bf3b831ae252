/** Small facts of integer arithmetic that the solver does not find alone. */
module Arith {
  lemma {:induction false} MulAtLeast(k: int, n: int)
    requires k >= 1 && n >= 0
    ensures k * n >= n
  {
    if k > 1 {
      MulAtLeast(k - 1, n);
      assert k * n == (k - 1) * n + n;
    }
  }

  /** Division of a multiple is exact. */
  lemma ExactDivision(q: int, a: int)
    requires a > 0
    ensures (q * a) % a == 0 && (q * a) / a == q
  {
    var d, r := (q * a) / a, (q * a) % a;
    assert a * (q - d) == r;
    if q - d >= 1 {
      MulAtLeast(q - d, a);
    } else if d - q >= 1 {
      MulAtLeast(d - q, a);
    }
  }

  /** Reassociating a product of three factors. */
  lemma Reassociate(x: int, y: int, z: int, u: int, v: int)
    requires x * y == u * v
    ensures x * (y * z) == v * (u * z)
  {
    assert x * (y * z) == (x * y) * z;
    assert v * (u * z) == (u * v) * z;
  }

  /** The arithmetic step of the absorption identity. */
  lemma AbsorptionStep(n: int, k: int, a: int, b: int, c: int, d: int)
    requires a == c + d && (k - 1) * a == (n - 1) * c && k * b == (n - 1) * d
    ensures k * (a + b) == n * a
  {
    assert k * (a + b) == (k - 1) * a + a + k * b;
    assert (n - 1) * c + (n - 1) * d == (n - 1) * a;
  }

  /** If b f = p and p g = t for f, g >= 1, then f g divides t exactly, with quotient b. */
  lemma QuotientOfProduct(b: int, f: int, g: int, p: int, t: int)
    requires f >= 1 && g >= 1 && p == b * f && p * g == t
    ensures b * (f * g) == t && f * g >= 1
    ensures t % (f * g) == 0 && b == t / (f * g)
  {
    MulAtLeast(f, g);
    assert b * (f * g) == (b * f) * g;
    ExactDivision(b, f * g);
    assert b * (f * g) == t;
    assert (b * (f * g)) / (f * g) == b;
  }

  lemma MulAssociative(a: int, b: int, c: int)
    ensures (a * b) * c == a * (b * c)
  {
  }

  lemma MulRotate(b: int, a: int, f: int)
    ensures b * (a * f) == (b * f) * a
  {
  }

  lemma MulMonotone(a: int, b: int, c: int)
    requires 0 <= a <= b && c >= 0
    ensures a * c <= b * c
  {
    if a < b {
      MulAtLeast(b - a, c);
      assert b * c == a * c + (b - a) * c;
    }
  }

  /** With blocks of size `size` laid out one after another, every element of block k precedes block k'. */
  lemma BlocksApart(k: int, k': int, offset: int, size: int)
    requires k < k' && 0 <= offset < size
    ensures offset + size * k < size * k'
  {
    MulAtLeast(k' - k, size);
    assert size * k' == size * k + (k' - k) * size;
  }
}
