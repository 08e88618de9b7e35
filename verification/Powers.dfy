/** Powers of two, and how often a number can be halved. */
module Powers {

  function Pow2(k: nat): (p: nat)
    ensures p > 0
  {
    if k == 0 then 1 else 2 * Pow2(k - 1)
  }

  /** floor(log2 n), and 0 for 0. */
  function Log2(n: nat): nat {
    if n <= 1 then 0 else 1 + Log2(n / 2)
  }

  lemma Doubled(x: nat, y: nat)
    ensures 2 * (x * y) == (2 * x) * y
  {
  }

  lemma {:induction false} Pow2Sum(j: nat, k: nat)
    ensures Pow2(j + k) == Pow2(j) * Pow2(k)
  {
    if j > 0 {
      Pow2Sum(j - 1, k);
      Doubled(Pow2(j - 1), Pow2(k));
      assert Pow2(j + k) == 2 * Pow2(j - 1 + k) && Pow2(j) == 2 * Pow2(j - 1);
    }
  }

  lemma {:induction false} Pow2Monotone(j: nat, k: nat)
    requires j <= k
    ensures Pow2(j) <= Pow2(k)
  {
    if j < k { Pow2Monotone(j, k - 1); }
  }

  lemma {:induction false} Log2Monotone(m: nat, n: nat)
    requires m <= n
    ensures Log2(m) <= Log2(n)
  {
    if m > 1 {
      Log2Monotone(m / 2, n / 2);
    }
  }

  lemma Log2Half(m: nat, n: nat)
    requires 1 <= m && 2 * m <= n
    ensures Log2(m) + 1 <= Log2(n)
  {
    assert (2 * m) / 2 == m;
    Log2Monotone(2 * m, n);
  }

  lemma {:induction false} Log2Between(n: nat)
    requires n >= 1
    ensures Pow2(Log2(n)) <= n < 2 * Pow2(Log2(n))
  {
    if n > 1 { Log2Between(n / 2); }
  }

  /** The binary logarithm, rounded down: the one `k` with 2^k <= n < 2^(k + 1). */
  lemma {:induction false} Log2Is(n: nat, k: nat)
    requires n >= 1
    ensures k == Log2(n) <==> Pow2(k) <= n < 2 * Pow2(k)
  {
    Log2Between(n);
    if k < Log2(n) {
      Pow2Monotone(k + 1, Log2(n));
    } else if k > Log2(n) {
      Pow2Monotone(Log2(n) + 1, k);
    }
  }

  lemma Log2AtLeast(n: nat, k: nat)
    requires n >= 1 && k <= Log2(n)
    ensures Pow2(k) <= n
  {
    Log2Between(n);
    Pow2Monotone(k, Log2(n));
  }
}
