/** Facts about multiplication, division and remainder with a symbolic divisor. */
module Arith {

  lemma Monotone(a: int, b: int, n: nat)
    requires a <= b
    ensures a * n <= b * n
  {
  }

  /** Multiples of `n` are at least `n` apart. */
  lemma Spread(a: int, b: int, n: nat)
    requires a < b
    ensures a * n + n <= b * n
  {
    Monotone(a + 1, b, n);
    assert (a + 1) * n == a * n + n;
  }

  lemma SmallMultiple(n: int, d: int)
    requires -n < n * d < n
    ensures d == 0
  {
  }

  /** Quotient and remainder are unique. */
  lemma DivModUnique(x: int, n: nat, q: int, r: nat)
    requires n > 0 && r < n && x == n * q + r
    ensures x % n == r && x / n == q
  {
    var d := x / n - q;
    assert n * d == r - x % n;
    SmallMultiple(n, d);
  }

  lemma MulDivMod(b: int, n: nat)
    requires n > 0
    ensures b * n / n == b && b * n % n == 0
  {
    DivModUnique(b * n, n, b, 0);
  }

  lemma DivMod(a: int, n: nat)
    requires n > 0
    ensures a / n * n <= a < (a / n + 1) * n
  {
  }

  /** Adding a multiple does not change the remainder. */
  lemma ModWitness(x: int, n: nat, t: int)
    requires n > 0
    ensures (x + n * t) % n == x % n
  {
    var q, r := x / n, x % n;
    assert x + n * t == n * (q + t) + r;
    DivModUnique(x + n * t, n, q + t, r);
  }
}
