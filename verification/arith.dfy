/** Facts about Euclidean division and powers of two that the rest of the
    model leans on. Dafny's `/` and `%` on `int` are Euclidean: for a positive
    divisor the remainder lies in [0, divisor). */
module Arith {

  /** Multiplication by a non-negative factor is monotone. */
  lemma MulMonotone(n: int, x: int, y: int)
    requires 0 <= n
    ensures x <= y ==> n * x <= n * y
  {
    if x <= y {
      assert n * y - n * x == n * (y - x);
    }
  }

  /** Euclidean division is determined by its defining equation: any
      quotient and remainder in range are the ones `/` and `%` give. */
  lemma DivModUnique(a: int, n: int, k: int, r: int)
    requires 0 < n && a == n * k + r && 0 <= r < n
    ensures a / n == k && a % n == r
  {
    var k0 := a / n;
    MulMonotone(n, k + 1, k0);
    MulMonotone(n, k0 + 1, k);
    assert n * (k + 1) == n * k + n;
    assert n * (k0 + 1) == n * k0 + n;
  }

  /** Adding a multiple of the divisor does not change the remainder. */
  lemma ModAddMultiple(a: int, n: int, k: int)
    requires 0 < n
    ensures (a + n * k) % n == a % n
    ensures (a + n * k) / n == a / n + k
  {
    var q, r := a / n, a % n;
    assert a + n * k == n * (q + k) + r;
    DivModUnique(a + n * k, n, q + k, r);
  }

  /** Two integers have the same remainder exactly when their difference is
      a multiple of the divisor. */
  lemma SameModIff(a: int, b: int, n: int)
    requires 0 < n
    ensures a % n == b % n <==> (a - b) % n == 0
  {
    var qa, ra := a / n, a % n;
    var qb, rb := b / n, b % n;
    if ra >= rb {
      assert a - b == n * (qa - qb) + (ra - rb);
      DivModUnique(a - b, n, qa - qb, ra - rb);
    } else {
      assert a - b == n * (qa - qb - 1) + (n + ra - rb);
      DivModUnique(a - b, n, qa - qb - 1, n + ra - rb);
    }
  }

  /** 2^k; never zero, so 2^k - 1 is a natural number. */
  function Pow2(k: nat): (p: nat)
    ensures p >= 1
  {
    if k == 0 then 1 else 2 * Pow2(k - 1)
  }
}
