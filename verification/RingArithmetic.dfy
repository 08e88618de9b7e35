/** Positions that count modulo 2^64, and indices taken from their low bits. */
module RingArithmetic {
  import opened Powers

  const WORD: nat := 0x1_0000_0000_0000_0000

  /** `x & y`, bit by bit. */
  function BitAnd(x: nat, y: nat): (r: nat)
    ensures r <= y
  {
    if x == 0 || y == 0 then 0 else (x % 2) * (y % 2) + 2 * BitAnd(x / 2, y / 2)
  }

  lemma {:induction false} MulLess(a: nat, b: nat, m: nat)
    ensures a < b ==> a * m + m <= b * m
  {
    if a + 1 < b {
      MulLess(a, b - 1, m);
    }
    assert b > 0 ==> b * m == (b - 1) * m + m;
  }

  lemma Division(x: nat, m: nat)
    requires m > 0
    ensures x == (x / m) * m + x % m
  {
  }

  lemma Remainder(x: nat, m: nat, q: nat, r: nat)
    requires m > 0 && x == q * m + r && r < m
    ensures x % m == r
  {
    var d := x / m;
    Division(x, m);
    MulLess(d, q, m);
    MulLess(q, d, m);
  }

  lemma HalfRemainder(x: nat, p: nat)
    requires p > 0
    ensures x % (2 * p) == 2 * (x / 2 % p) + x % 2
  {
    var h := x / 2;
    var q := h / p;
    Division(h, p);
    assert q * (2 * p) == 2 * (q * p);
    Remainder(x, 2 * p, q, 2 * (h % p) + x % 2);
  }

  lemma LowestBit(x: nat, p: nat)
    requires p > 0
    ensures BitAnd(x, 2 * p - 1) == x % 2 + 2 * BitAnd(x / 2, p - 1)
  {
    assert (2 * p - 1) / 2 == p - 1 && (2 * p - 1) % 2 == 1;
  }

  /** The low `k` bits are the remainder of a division by 2^k. */
  lemma {:induction false} MaskIsRemainder(x: nat, k: nat)
    ensures BitAnd(x, Pow2(k) - 1) == x % Pow2(k)
    decreases k
  {
    hide BitAnd;
    if k > 0 {
      var p := Pow2(k - 1);
      MaskIsRemainder(x / 2, k - 1);
      LowestBit(x, p);
      HalfRemainder(x, p);
    } else {
      NoBits(x);
    }
  }

  lemma NoBits(x: nat)
    ensures BitAnd(x, 0) == 0 && x % 1 == 0
  {
  }

  lemma WordIsPow2()
    ensures Pow2(64) == WORD
  {
    assert Pow2(4) == 16;
    Pow2Sum(4, 4);
    Pow2Sum(8, 8);
    Pow2Sum(16, 16);
    Pow2Sum(32, 32);
  }

  lemma Regroup(q: nat, m: nat, c: nat, d: nat)
    ensures (q * c + d) * m == q * (m * c) + d * m
  {
    assert (q * c) * m == q * (c * m);
  }

  lemma RemainderOfRemainder(x: nat, m: nat, c: nat, w: nat)
    requires m > 0 && w > 0 && w == m * c
    ensures (x % w) % m == x % m
  {
    var q, y := x / w, x % w;
    Division(x, w);
    Division(y, m);
    Regroup(q, m, c, y / m);
    Remainder(x, m, q * c + y / m, y % m);
  }

  /** Taking a position modulo 2^64 first does not change its index. */
  lemma WrapKeepsIndex(x: nat, k: nat)
    requires k <= 64
    ensures (x % WORD) % Pow2(k) == x % Pow2(k)
  {
    WordIsPow2();
    Pow2Sum(k, 64 - k);
    RemainderOfRemainder(x, Pow2(k), Pow2(64 - k), WORD);
  }

  lemma ModAdd(x: nat, j: nat, m: nat)
    requires m > 0 && x % m + j < m
    ensures (x + j) % m == x % m + j
  {
    Division(x, m);
    Remainder(x + j, m, x / m, x % m + j);
  }

  /** Fewer than `m` apart and different: different indices. */
  lemma ModDistinct(x: nat, y: nat, m: nat)
    requires m > 0 && x < y < x + m
    ensures x % m != y % m
  {
    Division(x, m);
    Division(y, m);
    MulLess(x / m, y / m, m);
    MulLess(y / m, x / m, m);
  }
}
