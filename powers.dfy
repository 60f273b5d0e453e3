/**
 * Powers of two and the facts about Euclidean division by them that the
 * bit-level code (right shifts, left shifts, bit tests) is reasoned with.
 */
module Powers {

  /** 2^k. */
  function Pow2(k: nat): (p: nat)
    ensures p >= 1
    ensures k > 0 ==> p % 2 == 0
  {
    if k == 0 then 1 else 2 * Pow2(k - 1)
  }

  /** A positive multiple of a positive number is at least that number. */
  lemma {:induction false} MulAtLeast(m: int, d: int)
    requires m > 0 && d >= 1
    ensures m * d >= m
    decreases d
  {
    if d > 1 {
      MulAtLeast(m, d - 1);
      assert m * d == m * (d - 1) + m;
    }
  }

  /** Quotient and remainder by a positive divisor are unique. */
  lemma DivModUnique(n: int, m: int, q: int, r: int)
    requires m > 0 && 0 <= r < m && n == m * q + r
    ensures n / m == q && n % m == r
  {
    var q0, r0 := n / m, n % m;
    assert m * q0 + r0 == m * q + r;
    if q0 < q {
      assert m * (q - q0) == r0 - r;
      MulAtLeast(m, q - q0);
    } else if q0 > q {
      assert m * (q0 - q) == r - r0;
      MulAtLeast(m, q0 - q);
    }
  }

  /**
   * Shifting right by k + 1 places is shifting right by k places and then by
   * one more: floor(n / 2^(k+1)) == floor(floor(n / 2^k) / 2).
   */
  lemma DivPow2Succ(n: int, k: nat)
    ensures n / Pow2(k + 1) == (n / Pow2(k)) / 2
  {
    var p := Pow2(k);
    var q, r := n / p, n % p;
    var h, b := q / 2, q % 2;
    assert n == p * q + r;
    assert q == 2 * h + b;
    assert p * q == (2 * p) * h + p * b;
    assert 0 <= p * b + r < 2 * p by {
      if b == 0 { assert p * b == 0; } else { assert p * b == p; }
    }
    DivModUnique(n, 2 * p, h, p * b + r);
  }

  /** Shifting right by 1 + k places is shifting by one and then by k. */
  lemma {:induction false} DivNestedPow2(n: int, k: nat)
    ensures n / Pow2(k + 1) == (n / 2) / Pow2(k)
    decreases k
  {
    if k > 0 {
      DivNestedPow2(n, k - 1);
      DivPow2Succ(n, k);
      DivPow2Succ(n / 2, k - 1);
    }
  }

  /**
   * The low (k + 1) bits of n are the low k bits of n / 2 followed by the
   * lowest bit of n.
   */
  lemma ModPow2Succ(n: int, k: nat)
    ensures n % Pow2(k + 1) == 2 * ((n / 2) % Pow2(k)) + n % 2
  {
    var p := Pow2(k);
    var h, b := n / 2, n % 2;
    var t, u := h / p, h % p;
    assert h == p * t + u;
    assert n == (2 * p) * t + (2 * u + b);
    DivModUnique(n, 2 * p, t, 2 * u + b);
  }
}
