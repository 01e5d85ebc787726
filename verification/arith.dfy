/** Facts about Euclidean division that the calendar and rotation proofs use. */
module Arith {

  lemma MulMono(k: int, a: int, b: int)
    ensures k > 0 && a <= b ==> k * a <= k * b
  {
    assert k * b - k * a == k * (b - a);
  }

  /** Quotient and remainder are unique. */
  lemma DivUnique(n: int, k: int, q: int, r: int)
    requires k > 0 && 0 <= r < k && n == k * q + r
    ensures n / k == q && n % k == r
  {
    var q0, r0 := n / k, n % k;
    assert n == k * q0 + r0;
    MulMono(k, q0 + 1, q);
    MulMono(k, q + 1, q0);
    assert k * (q0 + 1) == k * q0 + k && k * (q + 1) == k * q + k;
  }

  /** The quotient by `k` goes up by one exactly when a multiple of `k` is reached. */
  lemma DivStep(a: int, k: int)
    requires a >= 1 && k >= 1
    ensures a / k - (a - 1) / k == (if a % k == 0 then 1 else 0)
  {
    var q, r := (a - 1) / k, (a - 1) % k;
    assert a - 1 == k * q + r;
    if r + 1 < k {
      DivUnique(a, k, q, r + 1);
    } else {
      DivUnique(a, k, q + 1, 0);
    }
  }

  /** Counting one further moves a residue one step round the cycle. */
  lemma ModSucc(q: int, n: int)
    requires n > 0
    ensures (q + 1) % n == (q % n + 1) % n
  {
    var a, b := q / n, q % n;
    assert q == n * a + b;
    if b + 1 < n {
      DivUnique(q + 1, n, a, b + 1);
      DivUnique(b + 1, n, 0, b + 1);
    } else {
      DivUnique(q + 1, n, a + 1, 0);
      DivUnique(b + 1, n, 1, 0);
    }
  }

  /** Halving the number of whole weeks gives the number of whole fortnights. */
  lemma DivDiv(x: int)
    requires x >= 0
    ensures (x / 7) / 2 == x / 14
  {
    var q, r := x / 14, x % 14;
    assert x == 14 * q + r;
    if r < 7 {
      DivUnique(x, 7, 2 * q, r);
      DivUnique(2 * q, 2, q, 0);
    } else {
      DivUnique(x, 7, 2 * q + 1, r - 7);
      DivUnique(2 * q + 1, 2, q, 1);
    }
  }

  /** Counting days in blocks of `b`, the block number modulo `n` moves on
      exactly when a new block starts. */
  lemma BlockStep(x: int, b: int, n: int)
    requires x >= 0 && b >= 1 && n >= 1
    ensures (x + 1) % b != 0 ==> ((x + 1) / b) % n == (x / b) % n
    ensures (x + 1) % b == 0 ==> ((x + 1) / b) % n == ((x / b) % n + 1) % n
  {
    DivStep(x + 1, b);
    ModSucc(x / b, n);
  }

  /** Zero is the first position of every cycle. */
  lemma ZeroMod(n: int)
    requires n >= 1
    ensures 0 / 7 == 0 && (0 / 7) / 2 == 0 && 0 % n == 0
  {
    DivUnique(0, n, 0, 0);
  }
}
