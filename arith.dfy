/** Powers of two and the division facts the tree arithmetic rests on. */
module Arith {

  function Pow2(k: nat): (p: nat)
    ensures p >= 1
  {
    if k == 0 then 1 else 2 * Pow2(k - 1)
  }

  /** The least k with n <= 2^k (ceil(log2 n)), for n >= 1; 0 for n <= 1. */
  function CeilLog2(n: nat): nat
  {
    if n <= 1 then 0 else 1 + CeilLog2((n + 1) / 2)
  }

  ghost predicate IsPowerOfTwo(n: nat) {
    exists k: nat :: Pow2(k) == n
  }

  lemma {:induction false} Pow2Monotone(a: nat, b: nat)
    requires a <= b
    ensures Pow2(a) <= Pow2(b)
    ensures a < b ==> Pow2(a) < Pow2(b)
    decreases b
  {
    if a < b {
      Pow2Monotone(a, b - 1);
    }
  }

  lemma {:induction false} CeilLog2Bounds(n: nat)
    requires n >= 1
    ensures n <= Pow2(CeilLog2(n))
    ensures CeilLog2(n) > 0 ==> Pow2(CeilLog2(n) - 1) < n
    decreases n
  {
    if n > 1 {
      var m := (n + 1) / 2;
      CeilLog2Bounds(m);
    }
  }

  /** ceil(log2 n) is the only k with 2^(k-1) < n <= 2^k. */
  lemma CeilLog2Unique(n: nat, k: nat)
    requires n >= 1 && n <= Pow2(k)
    requires k > 0 ==> Pow2(k - 1) < n
    ensures k == CeilLog2(n)
  {
    var c := CeilLog2(n);
    CeilLog2Bounds(n);
    if k < c {
      Pow2Monotone(k, c - 1);
    } else if k > c {
      Pow2Monotone(c, k - 1);
    }
  }

  lemma {:induction false} CeilLog2Monotone(m: nat, n: nat)
    requires m <= n
    ensures CeilLog2(m) <= CeilLog2(n)
    decreases n
  {
    if m > 1 {
      CeilLog2Monotone((m + 1) / 2, (n + 1) / 2);
    }
  }

  lemma MulAtLeast(k: int, d: int)
    requires k >= 1 && d > 0
    ensures k * d >= d
  {
    var e := k - 1;
    assert e * d >= 0;
    assert k * d == e * d + d;
  }

  lemma DivUnique(n: int, d: int, q: int, r: int)
    requires d > 0 && 0 <= r < d && n == q * d + r
    ensures n / d == q
  {
    var q', r' := n / d, n % d;
    assert n == q' * d + r';
    var k := q - q';
    assert q * d == q' * d + k * d;
    assert k * d == r' - r;
    if k >= 1 {
      MulAtLeast(k, d);
    } else if k <= -1 {
      MulAtLeast(-k, d);
    }
  }

  lemma DivDiv(n: nat, a: nat, b: nat)
    requires a > 0 && b > 0
    ensures n / a / b == n / (a * b)
  {
    var q, r := n / a, n % a;
    var q2, r2 := q / b, q % b;
    assert n == q2 * (a * b) + (r2 * a + r) by {
      assert n == q * a + r;
      assert q == q2 * b + r2;
    }
    assert r2 * a + r < a * b by {
      assert r2 <= b - 1;
      assert r2 * a <= (b - 1) * a;
    }
    DivUnique(n, a * b, q2, r2 * a + r);
  }

  lemma DivPow2Succ(n: nat, k: nat)
    ensures n / Pow2(k + 1) == n / Pow2(k) / 2
  {
    DivDiv(n, Pow2(k), 2);
  }

  /** j is below n / p exactly when j + 1 blocks of p fit in n. */
  lemma DivBelow(j: nat, n: nat, p: nat)
    requires p > 0
    ensures j < n / p <==> (j + 1) * p <= n
  {
    var q, r := n / p, n % p;
    assert n == q * p + r;
    if j < q {
      assert (j + 1) * p <= q * p;
    } else {
      assert q * p + p <= (j + 1) * p;
    }
  }

  lemma DivMonotone(m: nat, n: nat, p: nat)
    requires p > 0 && m <= n
    ensures m / p <= n / p
  {
    if m / p > n / p {
      DivBelow(n / p, m, p);
      DivBelow(n / p, n, p);
    }
  }

  /**
    n shifted right by k bits, n / 2^k: halving k times. Stated by recursion so
    that the solver meets only division by the literal 2.
  */
  function Shift(n: nat, k: nat): nat {
    if k == 0 then n else Shift(n, k - 1) / 2
  }

  lemma {:induction false} ShiftIsDiv(n: nat, k: nat)
    ensures Shift(n, k) == n / Pow2(k)
  {
    if k > 0 {
      ShiftIsDiv(n, k - 1);
      DivPow2Succ(n, k - 1);
    }
  }

  /** j is below n >> k exactly when j + 1 blocks of 2^k fit in n. */
  lemma ShiftBelow(j: nat, n: nat, k: nat)
    ensures j < Shift(n, k) <==> (j + 1) * Pow2(k) <= n
  {
    ShiftIsDiv(n, k);
    DivBelow(j, n, Pow2(k));
  }

  /** n >> k is 0 exactly when 2^k exceeds n. */
  lemma ShiftZero(n: nat, k: nat)
    ensures Shift(n, k) == 0 <==> n < Pow2(k)
  {
    ShiftBelow(0, n, k);
  }

  lemma ShiftMonotone(m: nat, n: nat, k: nat)
    requires m <= n
    ensures Shift(m, k) <= Shift(n, k)
  {
    ShiftIsDiv(m, k);
    ShiftIsDiv(n, k);
    DivMonotone(m, n, Pow2(k));
  }

  /** Shifting by a and then by b is shifting by a + b. */
  lemma {:induction false} ShiftAdd(n: nat, a: nat, b: nat)
    ensures Shift(Shift(n, a), b) == Shift(n, a + b)
    decreases b
  {
    if b > 0 {
      ShiftAdd(n, a, b - 1);
    }
  }

  lemma {:induction false} ShiftAntitone(n: nat, a: nat, b: nat)
    requires a <= b
    ensures Shift(n, b) <= Shift(n, a)
    decreases b
  {
    if a < b {
      ShiftAntitone(n, a, b - 1);
    }
  }

  /** A count at least 2^a and below 2^b puts level a strictly below level b. */
  lemma LevelBelow(a: nat, b: nat, n: nat)
    requires Pow2(a) <= n < Pow2(b)
    ensures a < b
  {
    if b <= a {
      Pow2Monotone(b, a);
    }
  }
}

