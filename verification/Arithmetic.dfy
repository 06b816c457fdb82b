/** Numbers that several modules share: a wrapping counter, points, and one fact about division. */
module Arithmetic {
  datatype Point = Point(x: int, y: int)

  /** A 32-bit counter's next value. */
  function Bump(n: nat): (r: nat)
    ensures r < 0x1_0000_0000
    ensures n < 0xFFFF_FFFF ==> r == n + 1
    ensures n == 0xFFFF_FFFF ==> r == 0
  {
    (n + 1) % 0x1_0000_0000
  }

  /** Multiples of d are at least d apart. */
  lemma MulGap(a: int, b: int, d: int)
    requires d > 0
    ensures a < b ==> a * d + d <= b * d
  {
    var gap := b - a;
    assert b * d == a * d + gap * d;
    AtLeastOne(gap, d);
  }

  lemma AtLeastOne(k: int, d: int)
    requires d > 0
    ensures k > 0 ==> k * d >= d
  {
    assert k * d == (k - 1) * d + d;
  }

  /** Quotient and remainder are the only way to divide. */
  lemma Quotient(n: int, d: int, q: int, r: int)
    requires d > 0 && n == q * d + r && 0 <= r < d
    ensures n / d == q && n % d == r
  {
    var t := n / d;
    assert n == t * d + n % d && 0 <= n % d < d;
    MulGap(t, q, d);
    MulGap(q, t, d);
  }
}
