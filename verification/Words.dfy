/**
 Machine words as numbers: 32-bit words with wrap-around, shifts and bitwise operations,
 64-bit values as pairs of such words, and what those pairs stand for.
 */
module Words {
  import opened Arith

  const BASE := 0x1_0000_0000

  type Word = x: nat | x < BASE witness 0

  /** A 64-bit value, low word first. */
  datatype U64 = U64(lo: Word, hi: Word)

  function Join(a: U64): nat {
    a.hi * BASE + a.lo
  }

  // ------------------------------------------------------------------ bitwise operations

  function Xor(a: nat, b: nat): nat
    decreases a + b
  {
    if a == 0 && b == 0 then 0 else (a + b) % 2 + 2 * Xor(a / 2, b / 2)
  }

  function Or(a: nat, b: nat): nat
    decreases a + b
  {
    if a == 0 && b == 0 then 0 else (if a % 2 == 1 || b % 2 == 1 then 1 else 0) + 2 * Or(a / 2, b / 2)
  }

  lemma {:induction false} XorBound(a: nat, b: nat, w: nat)
    requires a < Pow2(w) && b < Pow2(w)
    ensures Xor(a, b) < Pow2(w)
  {
    if w > 0 && (a > 0 || b > 0) {
      XorBound(a / 2, b / 2, w - 1);
    }
  }

  lemma {:induction false} OrBound(a: nat, b: nat, w: nat)
    requires a < Pow2(w) && b < Pow2(w)
    ensures Or(a, b) < Pow2(w)
  {
    if w > 0 && (a > 0 || b > 0) {
      OrBound(a / 2, b / 2, w - 1);
    }
  }

  /** Bits that do not overlap: `or` is a sum. */
  lemma {:induction false} OrDisjoint(a: nat, b: nat, k: nat)
    requires a < Pow2(k)
    ensures Or(a, b * Pow2(k)) == a + b * Pow2(k)
  {
    if k == 0 {
      OrZero(b);
    } else {
      var p := Pow2(k - 1);
      assert b * Pow2(k) == 2 * (b * p);
      OrDisjoint(a / 2, b, k - 1);
    }
  }

  lemma {:induction false} OrZero(b: nat)
    ensures Or(0, b) == b
  {
    if b > 0 {
      OrZero(b / 2);
    }
  }

  lemma XorStep(a: nat, l: nat, a': nat, l': nat)
    ensures Xor(2 * a + l, 2 * a' + l') == (l + l') % 2 + 2 * Xor(a + l / 2, a' + l' / 2)
  {
    var x, x' := 2 * a + l, 2 * a' + l';
    assert x / 2 == a + l / 2 && x' / 2 == a' + l' / 2;
    assert (x + x') % 2 == (l + l') % 2;
  }

  /** `x * 2^k`, doubling step by step. */
  function Doubled(x: nat, k: nat): nat {
    if k == 0 then x else 2 * Doubled(x, k - 1)
  }

  lemma {:induction false} DoubledIsProduct(x: nat, k: nat)
    ensures Doubled(x, k) == x * Pow2(k)
  {
    if k == 0 {
      assert Pow2(0) == 1;
    } else {
      DoubledIsProduct(x, k - 1);
      Twice(x, Pow2(k - 1));
    }
  }

  /** `xor` works on the halves of a number separately. */
  lemma {:induction false} XorHalves(h: nat, l: nat, h': nat, l': nat, k: nat)
    requires l < Doubled(1, k) && l' < Doubled(1, k)
    ensures Xor(Doubled(h, k) + l, Doubled(h', k) + l') == Doubled(Xor(h, h'), k) + Xor(l, l')
  {
    if k == 0 {
      assert Xor(0, 0) == 0;
    } else {
      XorHalves(h, l / 2, h', l' / 2, k - 1);
      XorHalvesStep(Doubled(h, k - 1), l, Doubled(h', k - 1), l', Doubled(Xor(h, h'), k - 1));
    }
  }

  lemma XorHalvesStep(x: nat, l: nat, x': nat, l': nat, z: nat)
    requires Xor(x + l / 2, x' + l' / 2) == z + Xor(l / 2, l' / 2)
    ensures Xor(2 * x + l, 2 * x' + l') == 2 * z + Xor(l, l')
  {
    XorStep(x, l, x', l');
    XorStep(0, l, 0, l');
  }

  lemma Twice(x: nat, p: nat)
    ensures x * (2 * p) == 2 * (x * p)
  {
  }

  lemma BaseIsPow2()
    ensures Pow2(32) == BASE
  {
    assert Pow2(8) == 0x100;
    Pow2Sum(8, 8);
    Pow2Sum(16, 16);
  }

  function Xor32(a: Word, b: Word): Word {
    BaseIsPow2();
    XorBound(a, b, 32);
    Xor(a, b)
  }

  function Or32(a: Word, b: Word): Word {
    BaseIsPow2();
    OrBound(a, b, 32);
    Or(a, b)
  }

  function Quot(x: nat, p: nat): (q: nat)
    requires p >= 1
    ensures q <= x
  {
    ShrSmaller(x, p);
    x / p
  }

  lemma ShrSmaller(x: nat, p: nat)
    requires p >= 1
    ensures 0 <= x / p <= x
  {
    assert x == (x / p) * p + x % p;
    if x / p > x {
      NextMultiple(x, x / p, p);
    }
  }

  /** `x >> n` and `x << n` of a 32-bit word. */
  function Shr32(x: Word, n: nat): Word {
    Quot(x, Pow2(n))
  }

  function Shl32(x: Word, n: nat): Word {
    (x * Pow2(n)) % BASE
  }

  // ------------------------------------------------------------------ the pair operations

  function Add(a: U64, b: U64): U64 {
    var lo := (a.lo + b.lo) % BASE;
    var carry := if lo < a.lo then 1 else 0;
    U64(lo, ((a.hi + b.hi) % BASE + carry) % BASE)
  }

  function XorPair(a: U64, b: U64): U64 {
    U64(Xor32(a.lo, b.lo), Xor32(a.hi, b.hi))
  }

  function Rotr(a: U64, n: nat): U64
    requires 1 <= n <= 63
  {
    if n == 32 then U64(a.hi, a.lo)
    else if n < 32 then
      U64(Or32(Shr32(a.lo, n), Shl32(a.hi, 32 - n)), Or32(Shr32(a.hi, n), Shl32(a.lo, 32 - n)))
    else
      var m, swapped := n - 32, U64(a.hi, a.lo);
      U64(Or32(Shr32(swapped.lo, m), Shl32(swapped.hi, 32 - m)), Or32(Shr32(swapped.hi, m), Shl32(swapped.lo, 32 - m)))
  }

  // ------------------------------------------------------------------ what they stand for

  const WORD64 := BASE * BASE

  /** Rotation to the right of a 64-bit value. */
  function Rotr64(x: nat, n: nat): nat
    requires n <= 64
  {
    Quot(x, Pow2(n)) + (x % Pow2(n)) * Pow2(64 - n)
  }

  lemma JoinBound(a: U64)
    ensures Join(a) < WORD64
  {
  }

  lemma LowSum(x: Word, y: Word)
    ensures var lo := (x + y) % BASE;
            x + y == (if lo < x then BASE else 0) + lo
  {
  }

  lemma HighSum(sum: nat, carry: nat) returns (over: nat)
    ensures sum + carry == over * BASE + (sum % BASE + carry) % BASE
  {
    over := (sum + carry) / BASE;
  }

  /** The carry makes the pair addition one addition modulo 2^64. */
  lemma AddIsSum(a: U64, b: U64)
    ensures Join(Add(a, b)) == (Join(a) + Join(b)) % WORD64
  {
    var r := Add(a, b);
    var carry := if r.lo < a.lo then 1 else 0;
    LowSum(a.lo, b.lo);
    var over := HighSum(a.hi + b.hi, carry);
    DivUnique(Join(a) + Join(b), WORD64, over, Join(r));
  }

  lemma XorIsXor(a: U64, b: U64)
    ensures Join(XorPair(a, b)) == Xor(Join(a), Join(b))
  {
    BaseIsPow2();
    DoubledIsProduct(1, 32);
    DoubledIsProduct(a.hi, 32);
    DoubledIsProduct(b.hi, 32);
    DoubledIsProduct(Xor(a.hi, b.hi), 32);
    XorHalves(a.hi, a.lo, b.hi, b.lo, 32);
  }

  lemma Assoc(a: nat, b: nat, c: nat)
    ensures (a * b) * c == a * (b * c)
  {
  }

  /** Quotient and remainder by `p`, named. */
  lemma Divided(x: nat, p: nat) returns (q: nat, r: nat)
    requires p >= 1
    ensures q == x / p && r == x % p && q == Quot(x, p) && x == q * p + r && r < p
  {
    q, r := Quot(x, p), x % p;
  }

  lemma SmallQuotient(q: nat, r: nat, p: nat, m: nat)
    requires q * p + r < p * m
    ensures q < m
  {
    if m < q {
      NextMultiple(m, q, p);
    }
  }

  /** The high word's share of a rotated word: its low bits moved up, the rest shifted out. */
  lemma ShiftedOut(high: Word, n: nat, p: nat, m: nat, hq: nat, hr: nat)
    requires 1 <= n < 32 && m == Pow2(32 - n) && p * m == BASE
    requires high == hq * p + hr && hr < p
    ensures Shl32(high, 32 - n) == hr * m
  {
    Distribute(hq * p, hr, m);
    Assoc(hq, p, m);
    NextMultiple(hr, p, m);
    DivUnique(high * m, BASE, hq, hr * m);
  }

  /** One word of a rotation by less than 32: `p` and `m` are the two shift factors. */
  lemma RotrWord(low: Word, high: Word, n: nat, p: nat, m: nat, lq: nat, lr: nat, hq: nat, hr: nat)
    requires 1 <= n < 32 && p == Pow2(n) && m == Pow2(32 - n) && p * m == BASE
    requires low == lq * p + lr && lr < p && high == hq * p + hr && hr < p
    ensures Or32(Shr32(low, n), Shl32(high, 32 - n)) == lq + hr * m
  {
    DivUnique(low, p, lq, lr);
    SmallQuotient(lq, lr, p, m);
    ShiftedOut(high, n, p, m, hq, hr);
    OrDisjoint(lq, hr, 32 - n);
  }

  /** The two words of a rotation reassembled, and the whole divided by `p`. */
  lemma RotrValue(lq: nat, lr: nat, hq: nat, hr: nat, p: nat, m: nat, b: nat)
    requires p * m == b
    ensures (hq * p + hr) * b + (lq * p + lr) == (hq * b + hr * m + lq) * p + lr
    ensures (hq + lr * m) * b + (lq + hr * m) == (hq * b + hr * m + lq) + lr * (m * b)
  {
    Distribute(hq * p, hr, b);
    Distribute(hq * b + hr * m, lq, p);
    Distribute(hq * b, hr * m, p);
    Assoc(hq, b, p);
    Assoc(hq, p, b);
    Assoc(hr, m, p);
    Distribute(hq, lr * m, b);
    Assoc(lr, m, b);
  }

  lemma Powers(n: nat)
    requires n <= 32
    ensures Pow2(n) * Pow2(32 - n) == BASE && Pow2(64 - n) == Pow2(32 - n) * BASE && Pow2(32 + n) == Pow2(n) * BASE
  {
    BaseIsPow2();
    Pow2Sum(n, 32 - n);
    Pow2Sum(32 - n, 32);
    Pow2Sum(n, 32);
  }

  /** A 64-bit rotation by less than 32, from quotients and remainders of the two words. */
  lemma Rotr64Small(a: U64, n: nat, lq: nat, lr: nat, hq: nat, hr: nat)
    requires n < 32
    requires a.lo == lq * Pow2(n) + lr && lr < Pow2(n) && a.hi == hq * Pow2(n) + hr && hr < Pow2(n)
    ensures Rotr64(Join(a), n) == (hq + lr * Pow2(32 - n)) * BASE + (lq + hr * Pow2(32 - n))
  {
    var p, m := Pow2(n), Pow2(32 - n);
    Powers(n);
    RotrValue(lq, lr, hq, hr, p, m, BASE);
    DivUnique(Join(a), p, hq * BASE + hr * m + lq, lr);
  }

  lemma RotrSmall(a: U64, n: nat)
    requires 1 <= n < 32
    ensures Join(Rotr(a, n)) == Rotr64(Join(a), n)
  {
    var p, m := Pow2(n), Pow2(32 - n);
    Powers(n);
    var lq, lr := Divided(a.lo, p);
    var hq, hr := Divided(a.hi, p);
    RotrWord(a.lo, a.hi, n, p, m, lq, lr, hq, hr);
    RotrWord(a.hi, a.lo, n, p, m, hq, hr, lq, lr);
    Rotr64Small(a, n, lq, lr, hq, hr);
  }

  /** Rotating by 32 + n splits the high word and moves the low one up whole. */
  lemma Rotr64Large(a: U64, n: nat, hq: nat, hr: nat)
    requires n < 32 && a.hi == hq * Pow2(n) + hr && hr < Pow2(n)
    ensures Rotr64(Join(a), 32 + n) == hq + (hr * BASE + a.lo) * Pow2(32 - n)
  {
    var p := Pow2(n);
    Powers(n);
    Distribute(hq * p, hr, BASE);
    Assoc(hq, p, BASE);
    NextMultiple(hr, p, BASE);
    DivUnique(Join(a), p * BASE, hq, hr * BASE + a.lo);
  }

  /** Rotating the swapped pair by n is rotating the pair by 32 + n. */
  lemma SwapRotates(a: U64, n: nat)
    requires n < 32
    ensures Rotr64(Join(U64(a.hi, a.lo)), n) == Rotr64(Join(a), 32 + n)
  {
    var p, m := Pow2(n), Pow2(32 - n);
    Powers(n);
    var lq, lr := Divided(a.lo, p);
    var hq, hr := Divided(a.hi, p);
    Rotr64Small(U64(a.hi, a.lo), n, hq, hr, lq, lr);
    Rotr64Large(a, n, hq, hr);
    SwapValue(lq, lr, hq, hr, p, m, BASE);
  }

  lemma SwapValue(lq: nat, lr: nat, hq: nat, hr: nat, p: nat, m: nat, b: nat)
    requires p * m == b
    ensures (lq + hr * m) * b + (hq + lr * m) == hq + (hr * b + (lq * p + lr)) * m
  {
    Distribute(lq, hr * m, b);
    Assoc(hr, m, b);
    Distribute(hr * b, lq * p + lr, m);
    Distribute(lq * p, lr, m);
    Assoc(hr, b, m);
    Assoc(lq, p, m);
  }

  /** The pair rotation is the 64-bit rotation, for every distance from 1 to 63. */
  lemma RotrIsRotation(a: U64, n: nat)
    requires 1 <= n <= 63
    ensures Join(Rotr(a, n)) == Rotr64(Join(a), n)
  {
    if n < 32 {
      RotrSmall(a, n);
    } else {
      SwapRotates(a, n - 32);
      if n > 32 {
        RotrSmall(U64(a.hi, a.lo), n - 32);
      } else {
        assert Pow2(0) == 1;
      }
    }
  }
}
