/** Facts about integer multiplication, division and powers of two used by the index arithmetic. */
module Arithmetic {

  /** A multiple of k strictly between -k and k is zero. */
  lemma SmallMultipleIsZero(a: int, k: int, b: int)
    requires k > 0 && a * k == b && -k < b < k
    ensures a == 0
  {
    MulBounds(a, k);
  }

  lemma MulBounds(a: int, k: int)
    requires k > 0
    ensures a >= 1 ==> a * k >= k
    ensures a <= -1 ==> a * k <= -k
  {
    if a >= 1 {
      assert a * k == (a - 1) * k + k;
    } else if a <= -1 {
      assert a * k == (a + 1) * k - k;
    }
  }

  /** The quotient and remainder of a division are unique. */
  lemma DivModUnique(c: int, k: int, q: int, r: int)
    requires k > 0 && 0 <= r < k && c == q * k + r
    ensures c / k == q && c % k == r
  {
    var q', r' := c / k, c % k;
    assert (q' - q) * k == r - r' by {
      assert (q' - q) * k == q' * k - q * k;
    }
    SmallMultipleIsZero(q' - q, k, r - r');
  }

  /** Multiplication by a natural number is monotone. */
  lemma MulMonotone(k: nat, a: nat, b: nat)
    requires a <= b
    ensures k * a <= k * b
  {
    assert k * b == k * a + k * (b - a);
  }

  /** For 0 <= x < 2n, x mod n is x or x - n. */
  lemma ModSmall(x: int, n: int)
    requires n > 0 && 0 <= x < 2 * n
    ensures x < n ==> x % n == x
    ensures x >= n ==> x % n == x - n
  {
    if x < n {
      DivModUnique(x, n, 0, x);
    } else {
      DivModUnique(x, n, 1, x - n);
    }
  }

  function Pow2(n: nat): (r: nat)
    ensures r >= 1
  {
    if n == 0 then 1 else 2 * Pow2(n - 1)
  }

  lemma {:induction false} Pow2Add(a: nat, b: nat)
    ensures Pow2(a + b) == Pow2(a) * Pow2(b)
  {
    if a > 0 {
      Pow2Add(a - 1, b);
    }
  }

  /** `x << n` on unbounded naturals. */
  function ShiftLeft(x: nat, n: nat): (r: nat)
    ensures r >= x
  {
    if n == 0 then x else 2 * ShiftLeft(x, n - 1)
  }

  lemma {:induction false} ShiftLeftIsMul(x: nat, n: nat)
    ensures ShiftLeft(x, n) == x * Pow2(n)
  {
    if n > 0 {
      ShiftLeftIsMul(x, n - 1);
      assert x * (2 * Pow2(n - 1)) == 2 * (x * Pow2(n - 1));
    }
  }

  /** A smaller value shifted by n stays at least 2^n below: room for n more low bits. */
  lemma {:induction false} ShiftLeftGap(x: nat, a: nat, n: nat)
    requires x < a
    ensures ShiftLeft(x, n) + Pow2(n) <= ShiftLeft(a, n)
  {
    if n > 0 {
      ShiftLeftGap(x, a, n - 1);
    }
  }
}
