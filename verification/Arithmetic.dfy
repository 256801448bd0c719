/** Facts about products, quotients and powers of two. */
module Arithmetic {
  import opened Words

  lemma Expand(a: int, b: int)
    ensures (a - 1) * b == a * b - b
    ensures a * (b - 1) == a * b - a
    ensures (a - 1) * (b - 1) == a * b - a - b + 1
    ensures a * b == b * a
  {
  }

  lemma MulMonotone(p: int, a: int, b: int)
    requires p >= 0 && a <= b
    ensures p * a <= p * b
  {
  }

  lemma DivisionUnique(n: int, a: int, r: int, b: int, t: int)
    requires n * a + r == n * b + t && 0 <= r < n && 0 <= t < n
    ensures a == b && r == t
  {
    Expand(n, a);
    Expand(n, b);
    if a < b {
      MulMonotone(n, a, b - 1);
    } else if b < a {
      MulMonotone(n, b, a - 1);
    }
  }

  lemma ModUnique(x: int, n: int, a: int, r: int)
    requires n > 0 && x == n * a + r && 0 <= r < n
    ensures x % n == r && x / n == a
  {
    DivisionUnique(n, a, r, x / n, x % n);
  }

  lemma DivMonotone(a: int, b: int, p: int)
    requires a <= b && p > 0
    ensures a / p <= b / p
  {
    var x, y := a / p, b / p;
    assert a == p * x + a % p && b == p * y + b % p;
    if y < x {
      MulMonotone(p, y, x - 1);
      Expand(p, x);
    }
  }

  lemma {:induction false} Pow2Sum(a: nat, b: nat)
    ensures Pow2(a) * Pow2(b) == Pow2(a + b)
  {
    if a > 0 {
      Pow2Sum(a - 1, b);
    }
  }
}
