/**
 Powers of two and the few facts about products and quotients that the proofs use.
 */
module Arith {

  function Min(a: nat, b: nat): nat {
    if a < b then a else b
  }

  function Pow2(n: nat): (p: nat)
    ensures p >= 1
  {
    if n == 0 then 1 else 2 * Pow2(n - 1)
  }

  lemma {:induction false} Pow2Sum(m: nat, n: nat)
    ensures Pow2(m + n) == Pow2(m) * Pow2(n)
  {
    if m != 0 {
      Pow2Sum(m - 1, n);
      assert 2 * (Pow2(m - 1) * Pow2(n)) == (2 * Pow2(m - 1)) * Pow2(n);
    }
  }

  lemma {:induction false} Pow2Monotone(m: nat, n: nat)
    requires m <= n
    ensures Pow2(m) <= Pow2(n)
  {
    if m < n {
      Pow2Monotone(m, n - 1);
    }
  }

  lemma {:induction false} Pow2Strict(m: nat, k: nat)
    requires m < k
    ensures Pow2(m) < Pow2(k)
  {
    Pow2Monotone(m + 1, k);
  }

  lemma Distribute(a: int, b: int, p: int)
    ensures (a + b) * p == a * p + b * p
  {
  }

  lemma {:induction false} NextMultiple(w: nat, m: nat, p: nat)
    requires w < m
    ensures w * p + p <= m * p
  {
    Distribute(m - 1, 1, p);
    if w < m - 1 {
      NextMultiple(w, m - 1, p);
    }
  }

  lemma DivUnique(x: nat, d: nat, q: nat, r: nat)
    requires x == q * d + r && r < d
    ensures x / d == q && x % d == r
  {
    var q', r' := x / d, x % d;
    assert x == q' * d + r';
    if q' < q {
      NextMultiple(q', q, d);
    } else if q < q' {
      NextMultiple(q, q', d);
    }
  }

  lemma DivDiv(x: nat, p: nat)
    requires p > 0
    ensures x / (2 * p) == (x / 2) / p
  {
    var q, r := (x / 2) / p, (x / 2) % p;
    assert x / 2 == q * p + r;
    assert q * (2 * p) == 2 * (q * p);
    DivUnique(x, 2 * p, q, 2 * r + x % 2);
  }

  /** `x >> b`: halving `b` times. */
  function ShiftRight(x: nat, b: nat): (y: nat)
    ensures y == x / Pow2(b)
    decreases b
  {
    if b == 0 then assert Pow2(0) == 1; x else DivDiv(x, Pow2(b - 1)); ShiftRight(x / 2, b - 1)
  }
}
