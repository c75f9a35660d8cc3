/** Non-linear facts about integers, one product at a time. */
module Arithmetic {

  lemma MulMonotone(n: nat, a: int, b: int)
    requires a <= b
    ensures n * a <= n * b
    ensures a * n <= b * n
  {
  }

  lemma MulStrict(n: nat, a: int, b: int)
    requires a < b && n > 0
    ensures n * a < n * b
    ensures a * n < b * n
  {
  }

  lemma DivMod(x: int, n: nat)
    requires n > 0
    ensures x == n * (x / n) + x % n
    ensures 0 <= x % n < n
  {
  }

  lemma Small(n: nat, k: int)
    requires 0 < n + n * k < 2 * n
    ensures k == 0
  {
  }

  lemma DivUnique(x: int, n: nat, d: int, r: int)
    requires n > 0 && 0 <= r < n
    requires x == n * d + r
    ensures x / n == d && x % n == r
  {
    DivMod(x, n);
    var q := x / n;
    assert n * (d - q) == x % n - r;
    Small(n, d - q);
  }

  lemma MulBounds(a: nat, b: nat, A: nat, B: nat)
    requires a <= A && b <= B
    ensures 0 <= a * b <= A * B
  {
    MulMonotone(b, a, A);
    MulMonotone(A, b, B);
  }

  lemma Successor(n: nat, b: int)
    ensures (n + 1) * b == n * b + b
  {
  }

  lemma Distribute(a: int, b: int, c: int)
    ensures a * (b + c) == a * b + a * c
    ensures (b + c) * a == b * a + c * a
  {
  }

  lemma Associate(a: int, b: int, c: int)
    ensures (a * b) * c == a * (b * c)
    ensures a * (b * c) == b * (a * c)
  {
  }
}
