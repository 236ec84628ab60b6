/**
 The 256-bit difficulty target: big-endian bytes, comparison, and scaling by a fraction
 with four 64-bit limbs. Machine integers are `newtype`s, so every product, sum and
 narrowing below is checked to stay in its width.
 */
module Target {
  import opened Arith

  newtype u8 = x: int | 0 <= x < 0x100
  newtype u64 = x: int | 0 <= x < 0x1_0000_0000_0000_0000
  newtype u128 = x: int | 0 <= x < 0x1_0000_0000_0000_0000_0000_0000_0000_0000

  const LIMB: u128 := 0x1_0000_0000_0000_0000
  const B: nat := 0x1_0000_0000_0000_0000

  type Bytes32 = s: seq<u8> | |s| == 32 witness seq(32, _ => 0)

  function Fill(b: u8): (s: Bytes32)
    ensures forall i :: 0 <= i < 32 ==> s[i] == b
  {
    seq(32, _ => b)
  }

  const MAX_TARGET: Bytes32 := Fill(0xFF)

  // ------------------------------------------------------------------ big-endian values

  /** The number a big-endian byte string stands for. */
  function Value(s: seq<u8>): nat {
    if s == [] then 0 else 0x100 * Value(s[..|s| - 1]) + (s[|s| - 1] as nat)
  }

  ghost function Pow256(n: nat): (p: nat)
    ensures p >= 1
  {
    if n == 0 then 1 else 0x100 * Pow256(n - 1)
  }

  lemma {:induction false} ValueBound(s: seq<u8>)
    ensures Value(s) < Pow256(|s|)
  {
    if s != [] {
      ValueBound(s[..|s| - 1]);
    }
  }

  lemma {:induction false} ValueAppend(a: seq<u8>, b: seq<u8>)
    ensures Value(a + b) == Value(a) * Pow256(|b|) + Value(b)
  {
    if b == [] {
      assert a + b == a;
    } else {
      assert (a + b)[..|a + b| - 1] == a + b[..|b| - 1];
      ValueAppend(a, b[..|b| - 1]);
      assert 0x100 * (Value(a) * Pow256(|b| - 1)) == Value(a) * Pow256(|b|) by {
        Shift256(Value(a), Pow256(|b| - 1));
      }
    }
  }

  lemma Shift256(v: nat, p: nat)
    ensures 0x100 * (v * p) == v * (0x100 * p)
  {
  }

  lemma EightBytes()
    ensures Pow256(8) == B
  {
    assert Pow256(2) == 0x1_0000;
    assert Pow256(4) == 0x1_0000_0000;
    assert Pow256(6) == 0x1_0000_0000_0000;
  }

  function ToBytes(v: nat, n: nat): (s: seq<u8>)
    ensures |s| == n
  {
    if n == 0 then [] else ToBytes(v / 0x100, n - 1) + [(v % 0x100) as u8]
  }

  lemma {:induction false} ValueToBytes(v: nat, n: nat)
    requires v < Pow256(n)
    ensures Value(ToBytes(v, n)) == v
  {
    if n != 0 {
      ValueToBytes(v / 0x100, n - 1);
      assert ToBytes(v, n)[..n - 1] == ToBytes(v / 0x100, n - 1);
    }
  }

  /** A byte string is determined by its length and its value. */
  lemma {:induction false} ValueInjective(a: seq<u8>, b: seq<u8>)
    requires |a| == |b| && Value(a) == Value(b)
    ensures a == b
  {
    if a != [] {
      ValueInjective(a[..|a| - 1], b[..|b| - 1]);
      assert a == a[..|a| - 1] + [a[|a| - 1]] && b == b[..|b| - 1] + [b[|b| - 1]];
    }
  }

  // ------------------------------------------------------------------ comparison

  /** Comparing byte by byte from the front compares the numbers. */
  method HashUnderTarget(hash: Bytes32, target: Bytes32) returns (under: bool)
    ensures under <==> Value(hash) < Value(target)
  {
    for i := 0 to 32
      invariant hash[..i] == target[..i]
    {
      if hash[i] < target[i] {
        FirstDifference(hash, target, i);
        return true;
      }
      if hash[i] > target[i] {
        FirstDifference(target, hash, i);
        return false;
      }
      assert hash[..i + 1] == hash[..i] + [hash[i]];
      assert target[..i + 1] == target[..i] + [target[i]];
    }
    assert hash[..32] == hash && target[..32] == target;
    return false;
  }

  lemma FirstDifference(a: seq<u8>, b: seq<u8>, i: nat)
    requires i < |a| == |b| && a[..i] == b[..i] && a[i] < b[i]
    ensures Value(a) < Value(b)
  {
    var ha, hb := a[..i + 1], b[..i + 1];
    var ta, tb := a[i + 1..], b[i + 1..];
    assert a == ha + ta && b == hb + tb;
    assert ha[..i] == hb[..i];
    assert Value(ha) < Value(hb);
    ValueAppend(ha, ta);
    ValueAppend(hb, tb);
    ValueBound(ta);
    NextMultiple(Value(ha), Value(hb), Pow256(|ta|));
  }

  /** Zero is all zero bytes and nothing else. */
  lemma {:induction false} ZeroTarget(t: seq<u8>)
    ensures Value(t) == 0 <==> forall i :: 0 <= i < |t| ==> t[i] == 0
  {
    if t != [] {
      var init, last := t[..|t| - 1], t[|t| - 1];
      ZeroTarget(init);
      assert Value(t) == 0 <==> Value(init) == 0 && last == 0;
      assert forall i :: 0 <= i < |init| ==> init[i] == t[i];
    }
  }

  lemma {:induction false} MaxValue(t: seq<u8>)
    requires forall i :: 0 <= i < |t| ==> t[i] == 0xFF
    ensures Value(t) == Pow256(|t|) - 1
  {
    if t != [] {
      MaxValue(t[..|t| - 1]);
    }
  }

  // ------------------------------------------------------------------ limbs

  /** The number that limbs of base 2^64 stand for, most significant first. */
  ghost function Limbs(s: seq<u128>): nat {
    if s == [] then 0 else Limbs(s[..|s| - 1]) * B + (s[|s| - 1] as nat)
  }

  lemma LimbsPush(s: seq<u128>, x: u128)
    ensures Limbs(s + [x]) == Limbs(s) * B + (x as nat)
  {
    assert (s + [x])[..|s|] == s;
  }

  lemma FourLimbs(a: u128, b: u128, c: u128, d: u128)
    ensures Limbs([a, b, c, d]) == (((a as nat) * B + (b as nat)) * B + (c as nat)) * B + (d as nat)
  {
    LimbsPush([], a);
    LimbsPush([a], b);
    LimbsPush([a, b], c);
    LimbsPush([a, b, c], d);
    assert [a, b, c, d] == [a, b, c] + [d] && [a, b, c] == [a, b] + [c] && [a, b] == [a] + [b] && [a] == [] + [a];
  }

  lemma FiveLimbs(a: u128, b: u128, c: u128, d: u128, e: u128)
    ensures Limbs([a, b, c, d, e])
         == ((((a as nat) * B + (b as nat)) * B + (c as nat)) * B + (d as nat)) * B + (e as nat)
  {
    FourLimbs(a, b, c, d);
    LimbsPush([a, b, c, d], e);
    assert [a, b, c, d, e] == [a, b, c, d] + [e];
  }

  /** Eight bytes as a big-endian 64-bit integer. */
  function FromBeBytes(s: seq<u8>): (v: u128)
    requires |s| == 8
    ensures v < LIMB && v as nat == Value(s)
  {
    EightBytes();
    ValueBound(s);
    Value(s) as u128
  }

  lemma ByteParts(t: Bytes32)
    ensures t[0..8] + t[8..16] == t[0..16] && t[0..16] + t[16..24] == t[0..24] && t[0..24] + t[24..32] == t
  {
  }

  lemma LimbsOfBytes(t: Bytes32)
    ensures Value(t) == Limbs([FromBeBytes(t[0..8]), FromBeBytes(t[8..16]),
                                 FromBeBytes(t[16..24]), FromBeBytes(t[24..32])])
  {
    EightBytes();
    ByteParts(t);
    ValueAppend(t[0..8], t[8..16]);
    ValueAppend(t[0..16], t[16..24]);
    ValueAppend(t[0..24], t[24..32]);
    FourLimbs(FromBeBytes(t[0..8]), FromBeBytes(t[8..16]), FromBeBytes(t[16..24]), FromBeBytes(t[24..32]));
  }

  // ------------------------------------------------------------------ multiplication

  lemma ProductFits(x: nat, y: nat)
    requires x < B && y < B
    ensures 0 <= x * y <= (B - 1) * (B - 1)
  {
    MulMonotone(x, B - 1, y);
  }

  lemma ScaleHorner(v: nat, x: nat, y: nat, n: nat)
    requires v == x * B + y
    ensures v * n == (x * n) * B + y * n
  {
  }

  /** Splitting the four partial products in halves and adding them up column by column. */
  lemma ColumnSum(v: nat, l0: nat, l1: nat, l2: nat, l3: nat, n: nat,
                  h0: nat, h1: nat, h2: nat, h3: nat, r0: nat, r1: nat, r2: nat, r3: nat)
    requires v == ((l0 * B + l1) * B + l2) * B + l3
    requires l0 * n == h0 * B + r0 && l1 * n == h1 * B + r1 && l2 * n == h2 * B + r2 && l3 * n == h3 * B + r3
    ensures (((h0 * B + (r0 + h1)) * B + (r1 + h2)) * B + (r2 + h3)) * B + r3 == v * n
  {
    var v1 := l0 * B + l1;
    var v2 := v1 * B + l2;
    ScaleHorner(v1, l0, l1, n);
    ScaleHorner(v2, v1, l2, n);
    ScaleHorner(v, v2, l3, n);
  }

  /** Multiplies the target by `num` into five limbs. */
  method MultiplyLimbs(t: Bytes32, num: u64) returns (acc: array<u128>)
    ensures fresh(acc) && acc.Length == 5
    ensures forall i :: 0 <= i < 5 ==> acc[i] < LIMB
    ensures Limbs(acc[..]) == Value(t) * (num as nat)
    ensures if num == 0 then acc[0] == 0 else acc[0] as nat < num as nat
  {
    acc := new u128[5](_ => 0);
    var limb0, limb1 := FromBeBytes(t[0..8]), FromBeBytes(t[8..16]);
    var limb2, limb3 := FromBeBytes(t[16..24]), FromBeBytes(t[24..32]);
    var n := num as u128;
    ProductFits(limb0 as nat, n as nat);
    ProductFits(limb1 as nat, n as nat);
    ProductFits(limb2 as nat, n as nat);
    ProductFits(limb3 as nat, n as nat);
    var p0, p1, p2, p3 := limb0 * n, limb1 * n, limb2 * n, limb3 * n;
    acc[0] := p0 / LIMB;
    acc[1] := p0 % LIMB + p1 / LIMB;
    acc[2] := p1 % LIMB + p2 / LIMB;
    acc[3] := p2 % LIMB + p3 / LIMB;
    acc[4] := p3 % LIMB;
    Columns(t, num, acc[..], p0 / LIMB, p1 / LIMB, p2 / LIMB, p3 / LIMB, p0 % LIMB, p1 % LIMB, p2 % LIMB, p3 % LIMB);
    PropagateCarries(acc, Value(t) * (num as nat));
    TopLimb(t, num, acc[..]);
  }

  lemma Columns(t: Bytes32, num: u64, acc: seq<u128>, h0: u128, h1: u128, h2: u128, h3: u128,
                r0: u128, r1: u128, r2: u128, r3: u128)
    requires FromBeBytes(t[0..8]) as nat * (num as nat) == h0 as nat * B + r0 as nat
    requires FromBeBytes(t[8..16]) as nat * (num as nat) == h1 as nat * B + r1 as nat
    requires FromBeBytes(t[16..24]) as nat * (num as nat) == h2 as nat * B + r2 as nat
    requires FromBeBytes(t[24..32]) as nat * (num as nat) == h3 as nat * B + r3 as nat
    requires |acc| == 5 && acc[0] == h0 && acc[1] as nat == r0 as nat + h1 as nat
    requires acc[2] as nat == r1 as nat + h2 as nat && acc[3] as nat == r2 as nat + h3 as nat && acc[4] == r3
    ensures Limbs(acc) == Value(t) * (num as nat)
  {
    var l0, l1 := FromBeBytes(t[0..8]), FromBeBytes(t[8..16]);
    var l2, l3 := FromBeBytes(t[16..24]), FromBeBytes(t[24..32]);
    LimbsOfBytes(t);
    FourLimbs(l0, l1, l2, l3);
    FiveLimbs(acc[0], acc[1], acc[2], acc[3], acc[4]);
    assert acc == [acc[0], acc[1], acc[2], acc[3], acc[4]];
    ColumnSum(Value(t), l0 as nat, l1 as nat, l2 as nat, l3 as nat, num as nat,
              h0 as nat, h1 as nat, h2 as nat, h3 as nat, r0 as nat, r1 as nat, r2 as nat, r3 as nat);
  }

  /** Moves what exceeds 64 bits into the next limb, from the last limb up to the first. */
  method PropagateCarries(acc: array<u128>, ghost total: nat)
    requires acc.Length == 5 && Limbs(acc[..]) == total
    requires forall i :: 0 <= i < 5 ==> acc[i] < 2 * LIMB
    modifies acc
    ensures Limbs(acc[..]) == total
    ensures forall i :: 1 <= i < 5 ==> acc[i] < LIMB
  {
    var i := 5;
    while i > 1
      invariant 1 <= i <= 5
      invariant forall j :: 0 <= j < i && j < 5 ==> acc[j] < 2 * LIMB + 2
      invariant forall j :: 0 <= j < i - 1 ==> acc[j] < 2 * LIMB
      invariant forall j :: i <= j < 5 ==> acc[j] < LIMB
      invariant Limbs(acc[..]) == total
    {
      i := i - 1;
      ghost var before := acc[..];
      var carry := acc[i] / LIMB;
      acc[i] := acc[i] % LIMB;
      acc[i - 1] := acc[i - 1] + carry;
      CarryKeeps(before, acc[..], i, carry);
    }
  }

  lemma CarryKeeps(before: seq<u128>, after: seq<u128>, i: nat, carry: u128)
    requires |before| == |after| == 5 && 1 <= i < 5
    requires before[i] as nat == carry as nat * B + after[i] as nat
    requires after[i - 1] as nat == before[i - 1] as nat + carry as nat
    requires forall j :: 0 <= j < 5 && j != i && j != i - 1 ==> after[j] == before[j]
    ensures Limbs(after) == Limbs(before)
  {
    FiveLimbs(before[0], before[1], before[2], before[3], before[4]);
    FiveLimbs(after[0], after[1], after[2], after[3], after[4]);
    assert before == [before[0], before[1], before[2], before[3], before[4]];
    assert after == [after[0], after[1], after[2], after[3], after[4]];
    if i == 1 {
    } else if i == 2 {
    } else if i == 3 {
    } else {
    }
  }

  /** The product of 256 bits and a factor has a top limb below the factor. */
  lemma TopLimb(t: Bytes32, num: u64, acc: seq<u128>)
    requires |acc| == 5 && Limbs(acc) == Value(t) * (num as nat)
    ensures if num == 0 then acc[0] == 0 else acc[0] as nat < num as nat
  {
    TargetBound(t);
    FiveLimbs(acc[0], acc[1], acc[2], acc[3], acc[4]);
    assert acc == [acc[0], acc[1], acc[2], acc[3], acc[4]];
    var top, below := acc[0] as nat, Limbs(acc);
    assert top * (B * B * B * B) <= below;
    if num > 0 && top >= num as nat {
      MulMonotone(num as nat, top, B * B * B * B);
      ProductBelow(Value(t), B * B * B * B, num as nat);
    }
  }

  lemma ProductBelow(v: nat, m: nat, n: nat)
    requires v < m && n > 0
    ensures v * n < n * m
  {
    NextMultiple(v, m, n);
  }

  /** The test on the top limb, before the division, fires for a zero denominator and for no other. */
  lemma OverflowTest(t: Bytes32, num: u64, den: u64, acc: seq<u128>)
    requires |acc| == 5 && Limbs(acc) == Value(t) * (num as nat)
    ensures acc[0] as nat >= den as nat * B <==> den == 0
  {
    TopLimb(t, num, acc);
  }

  lemma {:induction false} MulMonotone(x: nat, y: nat, z: nat)
    requires x <= y
    ensures x * z <= y * z
  {
    assert y * z == (y - x) * z + x * z;
    assert (y - x) * z >= 0;
  }

  lemma TargetBound(t: Bytes32)
    ensures Value(t) < B * B * B * B
  {
    ValueBound(t);
    EightBytes();
    PowerSplit();
  }

  lemma PowerSplit()
    ensures Pow256(32) == B * B * B * B
  {
    EightBytes();
    Pow256Sum(8, 8);
    Pow256Sum(16, 16);
  }

  lemma {:induction false} Pow256Sum(m: nat, n: nat)
    ensures Pow256(m + n) == Pow256(m) * Pow256(n)
  {
    if m != 0 {
      Pow256Sum(m - 1, n);
      Associate(0x100, Pow256(m - 1), Pow256(n));
    }
  }

  lemma Associate(x: nat, y: nat, z: nat)
    ensures x * (y * z) == (x * y) * z
  {
  }

  // ------------------------------------------------------------------ division

  /** The digit stays below 2^64 because the running remainder is below the divisor. */
  lemma DigitFits(cur: nat, d: nat, x: nat, y: nat)
    requires cur < d * B && cur == x * d + y
    ensures x < B
  {
    if x >= B {
      MulMonotone(B, x, d);
    }
  }

  lemma DigitStep(whole: nat, quotient: nat, rem: nat, digit: nat, d: nat, x: nat, y: nat)
    requires whole == quotient * d + rem && rem * B + digit == x * d + y
    ensures whole * B + digit == (quotient * B + x) * d + y
  {
    ScaleHorner(quotient * B + x, quotient, x, d);
  }

  function Widen(q: seq<u64>): (w: seq<u128>)
    ensures |w| == |q| && forall i :: 0 <= i < |q| ==> w[i] as nat == q[i] as nat
  {
    seq(|q|, i requires 0 <= i < |q| => q[i] as u128)
  }

  /** One step of the division: shift the remainder, add a limb, divide. */
  method DivideDigit(rem: u128, digit: u128, d: u128) returns (x: u64, y: u128)
    requires rem < d < LIMB && digit < LIMB
    ensures y < d && rem as nat * B + digit as nat == x as nat * d as nat + y as nat
  {
    var cur := rem * LIMB + digit;
    var quotient, remainder := cur / d, cur % d;
    QuotientIs(cur, d, quotient, remainder);
    DigitFits(cur as nat, d as nat, quotient as nat, remainder as nat);
    x, y := quotient as u64, remainder;
  }

  lemma QuotientIs(cur: u128, d: u128, quotient: u128, remainder: u128)
    requires d > 0 && quotient == cur / d && remainder == cur % d
    ensures remainder < d && cur as nat == quotient as nat * d as nat + remainder as nat
  {
  }

  /** Long division of five limbs by `d`, most significant limb first. */
  method DivideLimbs(acc: array<u128>, d: u128) returns (q: array<u64>)
    requires acc.Length == 5 && 0 < d < LIMB
    requires forall i :: 0 <= i < 5 ==> acc[i] < LIMB
    ensures fresh(q) && q.Length == 5
    ensures Limbs(Widen(q[..])) == Limbs(acc[..]) / (d as nat)
  {
    q := new u64[5](_ => 0);
    var rem: u128 := 0;
    for i := 0 to 5
      invariant DividedSoFar(acc[..i], q[..i], rem, d)
      invariant acc[..] == old(acc[..])
    {
      ghost var before := q[..i];
      var x, y := DivideDigit(rem, acc[i], d);
      q[i] := x;
      DivideStep(acc[..i], before, rem, acc[i], d, x, y);
      rem := y;
      assert acc[..i + 1] == acc[..i] + [acc[i]];
      assert q[..i + 1] == before + [x];
    }
    assert acc[..5] == acc[..] && q[..5] == q[..];
    DivUnique(Limbs(acc[..]), d as nat, Limbs(Widen(q[..])), rem as nat);
  }

  ghost predicate DividedSoFar(acc: seq<u128>, q: seq<u64>, rem: u128, d: u128) {
    rem < d && Limbs(acc) == Limbs(Widen(q)) * (d as nat) + rem as nat
  }

  lemma DivideStep(acc: seq<u128>, q: seq<u64>, rem: u128, digit: u128, d: u128, x: u64, y: u128)
    requires DividedSoFar(acc, q, rem, d) && y < d
    requires rem as nat * B + digit as nat == x as nat * d as nat + y as nat
    ensures DividedSoFar(acc + [digit], q + [x], y, d)
  {
    LimbsPush(acc, digit);
    LimbsPush(Widen(q), x as u128);
    assert Widen(q + [x]) == Widen(q) + [x as u128];
    DigitStep(Limbs(acc), Limbs(Widen(q)), rem as nat, digit as nat, d as nat, x as nat, y as nat);
  }

  // ------------------------------------------------------------------ scaling

  /** `floor(v * num / den)`, capped at the largest target. */
  function Scaled(v: nat, num: nat, den: nat): nat
    requires den > 0
  {
    var x := v * num / den;
    if x < B * B * B * B then x else B * B * B * B - 1
  }

  function ToBeBytes(v: u64): (s: seq<u8>)
    ensures |s| == 8 && Value(s) == v as nat
  {
    EightBytes();
    ValueToBytes(v as nat, 8);
    ToBytes(v as nat, 8)
  }

  lemma BytesOfLimbs(q: seq<u64>)
    requires |q| == 5
    ensures Value(ToBeBytes(q[1]) + ToBeBytes(q[2]) + ToBeBytes(q[3]) + ToBeBytes(q[4]))
         == Limbs(Widen(q)) - (q[0] as nat) * (B * B * B * B)
  {
    FourWords(ToBeBytes(q[1]), ToBeBytes(q[2]), ToBeBytes(q[3]), ToBeBytes(q[4]));
    var w := Widen(q);
    FiveLimbs(w[0], w[1], w[2], w[3], w[4]);
    assert w == [w[0], w[1], w[2], w[3], w[4]];
    TopApart(q[0] as nat, q[1] as nat, q[2] as nat, q[3] as nat, q[4] as nat);
  }

  lemma TopApart(a: nat, b: nat, c: nat, d: nat, e: nat)
    ensures (((a * B + b) * B + c) * B + d) * B + e == a * (B * B * B * B) + ((b * B + c) * B + d) * B + e
  {
  }

  lemma FourWords(a: seq<u8>, b: seq<u8>, c: seq<u8>, d: seq<u8>)
    requires |a| == |b| == |c| == |d| == 8
    ensures Value(a + b + c + d) == ((Value(a) * B + Value(b)) * B + Value(c)) * B + Value(d)
  {
    EightBytes();
    ValueAppend(a, b);
    ValueAppend(a + b, c);
    ValueAppend(a + b + c, d);
  }

  lemma MaxTargetValue()
    ensures Value(MAX_TARGET) == B * B * B * B - 1
  {
    MaxValue(MAX_TARGET);
    PowerSplit();
  }

  /**
   Scales a target by `num / den`. With a positive denominator the result is the capped
   floor, and the test on the top limb never fires; it fires exactly on `den == 0`, which
   a release build lets through.
   */
  method ScaleTarget(t: Bytes32, num: u64, den: u64) returns (out: Bytes32)
    ensures den > 0 ==> Value(out) == Scaled(Value(t), num as nat, den as nat)
    ensures den == 0 ==> out == if num == 0 then t else MAX_TARGET
  {
    MaxTargetValue();
    if num == den {
      TargetBound(t);
      if den > 0 {
        DivUnique(Value(t) * (num as nat), den as nat, Value(t), 0);
      }
      return t;
    }
    var d := den as u128;
    var acc := MultiplyLimbs(t, num);
    OverflowTest(t, num, den, acc[..]);
    if acc[0] >= d * LIMB {
      return MAX_TARGET;
    }
    var q := DivideLimbs(acc, d);
    BytesOfLimbs(q[..]);
    var parts := q[..];
    if q[0] != 0 {
      MulMonotone(1, q[0] as nat, B * B * B * B);
      return MAX_TARGET;
    }
    out := ToBeBytes(parts[1]) + ToBeBytes(parts[2]) + ToBeBytes(parts[3]) + ToBeBytes(parts[4]);
    TargetBound(out);
  }
}
