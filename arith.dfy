/** Integer facts used by the index arithmetic of every lattice backing. */
module Arith {

  /** Euclidean division is unique: a value written as q*b + r with 0 <= r < b splits back into q and r. */
  lemma DivModOf(q: int, r: int, b: int)
    requires b > 0 && 0 <= r < b
    ensures (q * b + r) / b == q && (q * b + r) % b == r
  {
    var a := q * b + r;
    var q', r' := a / b, a % b;
    assert a == q' * b + r';
    assert (q - q') * b == r' - r;
    SmallMultiple(q - q', b);
  }

  /** The only multiple of b strictly between -b and b is zero. */
  lemma SmallMultiple(k: int, b: int)
    requires b > 0 && -b < k * b < b
    ensures k == 0
  {
    if k > 0 {
      MulMono(1, k, b);
    } else if k < 0 {
      MulMono(k, -1, b);
    }
  }

  /** A mixed-radix coordinate stays below the product of the radices. */
  lemma MixedBound(q: int, r: int, n: int, b: int)
    requires 0 <= q < n && 0 <= r < b
    ensures 0 <= q * b + r < n * b
  {
    assert q * b <= (n - 1) * b;
  }

  /** Every value in [0, n*b) is the mixed-radix coordinate of its own quotient and remainder. */
  lemma Split(a: int, n: int, b: int)
    requires b > 0 && 0 <= a < n * b
    ensures 0 <= a / b < n && a == (a / b) * b + a % b
  {
    if a / b >= n {
      MulMono(n, a / b, b);
    }
  }

  /** Adding whole periods does not change the Euclidean remainder. */
  lemma ModPeriodic(x: int, k: int, n: int)
    requires n > 0
    ensures (x + k * n) % n == x % n
  {
    DivModOf(x / n + k, x % n, n);
    assert x + k * n == (x / n + k) * n + x % n;
  }

  /** Reducing a reduced value again changes nothing. */
  lemma ModIdempotent(x: int, n: int)
    requires n > 0
    ensures (x % n) % n == x % n
  {
    DivModOf(0, x % n, n);
  }

  /** Euclidean remainders of values that differ by one. */
  lemma ModStep(x: int, n: int)
    requires n > 0
    ensures (x + 1) % n == if x % n == n - 1 then 0 else x % n + 1
    ensures (x - 1) % n == if x % n == 0 then n - 1 else x % n - 1
  {
    var q, r := x / n, x % n;
    assert x == q * n + r;
    if r == n - 1 {
      assert x + 1 == (q + 1) * n + 0;
      DivModOf(q + 1, 0, n);
    } else {
      assert x + 1 == q * n + (r + 1);
      DivModOf(q, r + 1, n);
    }
    if r == 0 {
      assert x - 1 == (q - 1) * n + (n - 1);
      DivModOf(q - 1, n - 1, n);
    } else {
      assert x - 1 == q * n + (r - 1);
      DivModOf(q, r - 1, n);
    }
  }

  lemma MulMono(a: int, c: int, b: int)
    requires a <= c && b >= 0
    ensures a * b <= c * b
  {
    assert c * b - a * b == (c - a) * b;
  }

  function Pow2(k: nat): (r: nat)
    ensures r >= 1
  {
    if k == 0 then 1 else 2 * Pow2(k - 1)
  }

  /** Powers of two add their exponents. */
  lemma {:induction false} Pow2Add(a: nat, b: nat)
    ensures Pow2(a + b) == Pow2(a) * Pow2(b)
  {
    if a > 0 {
      Pow2Add(a - 1, b);
      assert Pow2(a + b) == 2 * Pow2(a - 1 + b);
    }
  }

  /** Reducing modulo a multiple of k first does not change the remainder modulo k. */
  lemma ModOfMod(a: int, k: int, m: int)
    requires k > 0 && m > 0
    ensures (a % (k * m)) % k == a % k
  {
    var q, r := a / (k * m), a % (k * m);
    assert a == q * (k * m) + r;
    assert q * (k * m) == (q * m) * k;
    ModPeriodic(r, q * m, k);
  }

  /** Multiplication distributes over a sum of two reals. */
  lemma RealDistrib(k: real, u: real, v: real)
    ensures k * u + k * v == k * (u + v)
  {
  }

  /** A product of two non-zero reals is non-zero. */
  lemma RealNonZero(k: real, x: real)
    requires k != 0.0 && x != 0.0
    ensures k * x != 0.0
  {
  }
}
