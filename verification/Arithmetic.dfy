/** Multiplication, division and remainder by a divisor that is not a constant. */
module Arithmetic {

  lemma MulBounds(k: int, d: int)
    requires d > 0
    ensures k >= 1 ==> k * d >= d
    ensures k <= -1 ==> k * d <= -d
  {
  }

  lemma MulMonotone(a: nat, b: nat, c: nat)
    requires a <= b
    ensures a * c <= b * c
  {
  }

  lemma DivModUnique(n: int, q: int, r: int, d: int)
    requires d > 0 && n == q * d + r && 0 <= r < d
    ensures n / d == q && n % d == r
  {
    var k := n / d - q;
    MulBounds(k, d);
    assert k * d == r - n % d;
  }

  lemma DivModStep(x: nat, n: nat)
    requires n > 0 && x >= n
    ensures x / n == (x - n) / n + 1 && x % n == (x - n) % n
  {
    var q, r := (x - n) / n, (x - n) % n;
    assert x == (q + 1) * n + r;
    DivModUnique(x, q + 1, r, n);
  }

  lemma MultipleOf(q: nat, d: nat)
    requires d > 0
    ensures q * d % d == 0
  {
    DivModUnique(q * d, q, 0, d);
  }
}
