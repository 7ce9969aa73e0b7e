/** Powers of two, as the shifts of the C code compute them, and division. */
module Arithmetic {

  function Pow2(n: nat): (r: nat)
    ensures r >= 1
  {
    if n == 0 then 1 else 2 * Pow2(n - 1)
  }

  lemma {:induction false} PowMonotone(m: nat, n: nat)
    requires m <= n
    ensures Pow2(m) <= Pow2(n)
    decreases n
  {
    if m < n {
      PowMonotone(m, n - 1);
    }
  }

  lemma {:induction false} PowAdd(m: nat, n: nat)
    ensures Pow2(m + n) == Pow2(m) * Pow2(n)
    decreases n
  {
    if n > 0 {
      PowAdd(m, n - 1);
      assert Pow2(m) * (2 * Pow2(n - 1)) == 2 * (Pow2(m) * Pow2(n - 1));
    }
  }

  // ---------- division ----------

  /** Quotient and remainder are what they are written as. */
  lemma DivUnique(x: int, q: int, r: nat, n: nat)
    requires x == n * q + r && r < n
    ensures x / n == q && x % n == r
  {
    var k := x / n - q;
    assert n * k == n * (x / n) - n * q == r - x % n;
    if k >= 1 {
      MulAtLeast(n, k);
    }
    MulNegative(n, k);
  }

  lemma MulNegative(n: int, k: int)
    requires n >= 0
    ensures k <= -1 ==> n * k <= -n
  {
    if k <= -1 {
      assert n * k == -n - n * (-1 - k);
      assert n * (-1 - k) >= 0;
    }
  }

  lemma {:induction false} MulAtLeast(n: nat, k: nat)
    requires k >= 1
    ensures n * k >= n
  {
    if k > 1 {
      MulAtLeast(n, k - 1);
      assert n * k == n * (k - 1) + n;
    }
  }
}
