/**
 64-bit machine words and the numbers they stand for: addition, exclusive or and the four
 rotations of BLAKE2b. Facts about bits are spelled out in full, as the solver decides them
 best where they stand; numbers are passed around by name.
 */
module WordNumbers {
  import opened Arith
  import opened Words

  function Value(x: bv64): nat {
    x as nat
  }

  /** A name for `Value` that does not unfold. */
  type Num = bv64 -> nat

  ghost predicate IsNum(num: Num) {
    forall x {:trigger Value(x)} :: num(x) == Value(x)
  }

  // ------------------------------------------------------------------ addition

  function Wide(x: bv65): nat {
    x as nat
  }

  lemma WideSum(x: bv64, y: bv64)
    ensures ((x as bv65) + (y as bv65)) as nat == x as nat + y as nat
  {
  }

  lemma WideParts(t: bv1, l: bv64)
    ensures (((t as bv65) << 64) | (l as bv65)) as nat == 0x1_0000_0000_0000_0000 * (t as nat) + (l as nat)
  {
  }

  lemma SumParts(x: bv64, y: bv64)
    ensures (x as bv65) + (y as bv65)
         == ((((((x as bv65) + (y as bv65)) >> 64) as bv1) as bv65) << 64) | ((x + y) as bv65)
  {
  }

  lemma WideOfSum(x: bv64, y: bv64)
    ensures Wide((x as bv65) + (y as bv65)) == x as nat + y as nat
  {
    WideSum(x, y);
  }

  lemma WideOfParts(t: bv1, l: bv64)
    ensures Wide(((t as bv65) << 64) | (l as bv65)) == 0x1_0000_0000_0000_0000 * (t as nat) + (l as nat)
  {
    WideParts(t, l);
  }

  /** A sum is the machine's sum and at most one word more. */
  lemma SumTop(x: bv64, y: bv64) returns (t: nat, a: nat, b: nat, l: nat)
    ensures a == Value(x) && b == Value(y) && l == Value(x + y)
    ensures a + b == WORD64 * t + l && l < WORD64
  {
    WideOfSum(x, y);
    SumParts(x, y);
    WideOfParts((((x as bv65) + (y as bv65)) >> 64) as bv1, x + y);
    t := ((((x as bv65) + (y as bv65)) >> 64) as bv1) as nat;
    a, b, l := x as nat, y as nat, (x + y) as nat;
  }

  function Sum(a: nat, b: nat): nat {
    (a + b) % WORD64
  }

  lemma SumIs(a: nat, b: nat, t: nat, l: nat)
    requires a + b == WORD64 * t + l && l < WORD64
    ensures Sum(a, b) == l
  {
  }

  lemma AddValue(x: bv64, y: bv64)
    ensures Value(x + y) == Sum(Value(x), Value(y))
  {
    var t, a, b, l := SumTop(x, y);
    SumIs(a, b, t, l);
  }

  lemma AddOp(num: Num, x: bv64, y: bv64) returns (z: bv64)
    requires IsNum(num)
    ensures z == x + y && num(z) == Sum(num(x), num(y))
  {
    z := x + y;
    AddValue(x, y);
  }

  // ------------------------------------------------------------------ exclusive or

  lemma LastBit(h: bv63, l: bv1)
    ensures (((h as bv64) << 1) | (l as bv64)) as nat == 2 * (h as nat) + (l as nat)
  {
  }

  lemma LastBitValue(h: bv63, l: bv1)
    ensures Value(((h as bv64) << 1) | (l as bv64)) == 2 * (h as nat) + (l as nat)
  {
    LastBit(h, l);
  }

  lemma HalfParts(x: bv64)
    ensures ((((x >> 1) as bv63) as bv64) << 1) | (((x & 1) as bv1) as bv64) == x
    ensures (x >> 1) as nat == ((x >> 1) as bv63) as nat && (x & 1) as nat == ((x & 1) as bv1) as nat
  {
  }

  lemma Half(x: bv64) returns (h: nat, b: nat)
    ensures Value(x) == 2 * h + b && h == Value(x >> 1) && b == Value(x & 1)
  {
    LastBitValue((x >> 1) as bv63, (x & 1) as bv1);
    HalfParts(x);
    h, b := (x >> 1) as nat, (x & 1) as nat;
  }

  lemma BitIs(x: bv64)
    ensures x & 1 == 0 || x & 1 == 1
  {
  }

  lemma BitXor(x: bv64, y: bv64)
    ensures (x ^ y) & 1 == (x & 1) ^ (y & 1) && (x ^ y) >> 1 == (x >> 1) ^ (y >> 1)
  {
  }

  lemma Bits(x: bv64, y: bv64) returns (b: nat, b': nat, c: nat)
    ensures b == Value(x & 1) && b' == Value(y & 1) && c == Value((x ^ y) & 1)
    ensures b <= 1 && b' <= 1 && c == (b + b') % 2
  {
    b, b', c := (x & 1) as nat, (y & 1) as nat, ((x ^ y) & 1) as nat;
    BitIs(x);
    BitIs(y);
    BitXor(x, y);
  }

  lemma XorParts(x: nat, y: nat, z: nat, hx: nat, bx: nat, hy: nat, by': nat, hz: nat, bz: nat)
    requires x == 2 * hx + bx && y == 2 * hy + by' && z == 2 * hz + bz && bx <= 1 && by' <= 1
    requires (bx + by') % 2 == bz && Xor(hx, hy) == hz
    ensures Xor(x, y) == z
  {
    XorStep(hx, bx, hy, by');
  }

  ghost predicate XorAgrees(x: bv64, y: bv64) {
    Xor(Value(x), Value(y)) == Value(x ^ y)
  }

  lemma HalfXor(x: bv64, y: bv64) returns (h: nat, b: nat)
    ensures Value(x ^ y) == 2 * h + b && h == Value((x >> 1) ^ (y >> 1)) && b == Value((x ^ y) & 1)
  {
    h, b := Half(x ^ y);
    BitXor(x, y);
  }

  lemma XorByHalves(x: bv64, y: bv64)
    ensures XorAgrees(x >> 1, y >> 1) ==> XorAgrees(x, y)
  {
    var hx, bx := Half(x);
    var hy, by' := Half(y);
    var hz, bz := HalfXor(x, y);
    var b, b', c := Bits(x, y);
    if Xor(hx, hy) == hz {
      XorParts(Value(x), Value(y), Value(x ^ y), hx, bx, hy, by', hz, bz);
    }
  }

  ghost predicate Below(x: bv64, n: nat) {
    Value(x) < Pow2(n)
  }

  lemma XorNothing(x: bv64, y: bv64)
    ensures Below(x, 0) && Below(y, 0) ==> XorAgrees(x, y)
  {
    assert Pow2(0) == 1;
    if Below(x, 0) && Below(y, 0) {
      Zero(x);
      Zero(y);
    }
  }

  lemma Zero(x: bv64)
    requires Value(x) == 0
    ensures x == 0
  {
  }

  function Next(n: nat): nat {
    n + 1
  }

  function Halved(x: bv64): bv64 {
    x >> 1
  }

  lemma BelowHalf(x: bv64, n: nat)
    ensures Below(x, Next(n)) ==> Below(Halved(x), n)
  {
    var h, b := Half(x);
  }

  /** What holds of the halves holds of the whole, down to nothing. */
  lemma {:induction false} ByBits<W(!new)>(ok: (W, W) -> bool, below: (W, nat) -> bool, half: W -> W,
                                           x: W, y: W, n: nat)
    requires forall x, y {:trigger ok(x, y)} :: ok(half(x), half(y)) ==> ok(x, y)
    requires forall x, y {:trigger ok(x, y)} :: below(x, 0) && below(y, 0) ==> ok(x, y)
    requires forall x, n: nat {:trigger below(x, Next(n))} :: below(x, Next(n)) ==> below(half(x), n)
    requires below(x, n) && below(y, n)
    ensures ok(x, y)
  {
    if n > 0 {
      assert below(x, Next(n - 1)) && below(y, Next(n - 1));
      ByBits(ok, below, half, half(x), half(y), n - 1);
    }
  }

  lemma AllBelow(x: bv64)
    ensures Below(x, 64)
  {
    BaseIsPow2();
    Pow2Sum(32, 32);
  }

  lemma XorValue(x: bv64, y: bv64)
    ensures XorAgrees(x, y)
  {
    forall x: bv64, y: bv64 ensures XorAgrees(Halved(x), Halved(y)) ==> XorAgrees(x, y) {
      XorByHalves(x, y);
    }
    forall x: bv64, y: bv64 ensures Below(x, 0) && Below(y, 0) ==> XorAgrees(x, y) {
      XorNothing(x, y);
    }
    forall x: bv64, n: nat ensures Below(x, Next(n)) ==> Below(Halved(x), n) {
      BelowHalf(x, n);
    }
    AllBelow(x);
    AllBelow(y);
    ByBits(XorAgrees, Below, Halved, x, y, 64);
  }

  lemma XorOp(num: Num, x: bv64, y: bv64) returns (z: bv64)
    requires IsNum(num)
    ensures z == x ^ y && num(z) == Xor(num(x), num(y))
  {
    z := x ^ y;
    XorValue(x, y);
  }

  // ------------------------------------------------------------------ rotation

  lemma RotrIs(x: nat, n: nat, p: nat, q: nat, h: nat, l: nat)
    requires n <= 64 && p == Pow2(n) && q == Pow2(64 - n) && x == p * h + l && l < p
    ensures Rotr64(x, n) == q * l + h
  {
    DivUnique(x, p, h, l);
  }

  lemma Powers()
    ensures Pow2(16) == 0x1_0000 && Pow2(24) == 0x100_0000 && Pow2(32) == 0x1_0000_0000
    ensures Pow2(40) == 0x100_0000_0000 && Pow2(48) == 0x1_0000_0000_0000
    ensures Pow2(1) == 2 && Pow2(63) == 0x8000_0000_0000_0000
  {
    assert Pow2(8) == 0x100;
    Pow2Sum(8, 8);
    Pow2Sum(16, 8);
    Pow2Sum(16, 16);
    Pow2Sum(32, 8);
    Pow2Sum(32, 16);
    Pow2Sum(48, 15);
    assert Pow2(7) == 0x80;
    Pow2Sum(8, 7);
  }

  lemma Cut32(h: bv32, l: bv32)
    ensures (((h as bv64) << 32) | (l as bv64)) as nat == 0x100000000 * (h as nat) + (l as nat)
  {
  }

  lemma Uncut32(x: bv64)
    ensures ((((x >> 32) as bv32) as bv64) << 32) | (((x & 0xffffffff) as bv32) as bv64) == x
  {
  }

  lemma Turned32(x: bv64)
    ensures ((x >> 32) | (x << 32)) as nat
         == 0x100000000 * (((x & 0xffffffff) as bv32) as nat) + (((x >> 32) as bv32) as nat)
  {
  }

  lemma CutValue32(h: bv32, l: bv32) returns (v: nat, hn: nat, ln: nat)
    ensures v == Value(((h as bv64) << 32) | (l as bv64)) == 0x100000000 * hn + ln
    ensures hn == h as nat && ln == l as nat && ln < 0x100000000
  {
    Cut32(h, l);
    v, hn, ln := Value(((h as bv64) << 32) | (l as bv64)), h as nat, l as nat;
  }

  lemma Whole32(x: bv64) returns (v: nat)
    ensures v == Value(x)
    ensures v == Value(((((x >> 32) as bv32) as bv64) << 32) | (((x & 0xffffffff) as bv32) as bv64))
  {
    v := Value(x);
    Uncut32(x);
  }

  lemma TurnedValue32(x: bv64) returns (v: nat, hn: nat, ln: nat)
    ensures v == Value((x >> 32) | (x << 32)) == 0x100000000 * ln + hn
    ensures hn == ((x >> 32) as bv32) as nat && ln == ((x & 0xffffffff) as bv32) as nat
  {
    Turned32(x);
    v := Value((x >> 32) | (x << 32));
    hn, ln := ((x >> 32) as bv32) as nat, ((x & 0xffffffff) as bv32) as nat;
  }

  lemma Parts32(x: bv64) returns (h: nat, l: nat)
    ensures Value(x) == 0x100000000 * h + l && l < 0x100000000
    ensures Value((x >> 32) | (x << 32)) == 0x100000000 * l + h
  {
    var v := Whole32(x);
    var v', t, h', l';
    v', h, l := CutValue32((x >> 32) as bv32, (x & 0xffffffff) as bv32);
    t, h', l' := TurnedValue32(x);
  }

  lemma Turn32(num: Num, x: bv64) returns (z: bv64)
    requires IsNum(num)
    ensures z == (x >> 32) | (x << 32) && num(z) == Rotr64(num(x), 32)
  {
    z := (x >> 32) | (x << 32);
    var h, l := Parts32(x);
    Powers();
    RotrIs(Value(x), 32, 0x100000000, 0x100000000, h, l);
    assert num(z) == Value(z) && num(x) == Value(x);
  }

  lemma Cut24(h: bv40, l: bv24)
    ensures (((h as bv64) << 24) | (l as bv64)) as nat == 0x1000000 * (h as nat) + (l as nat)
  {
  }

  lemma Uncut24(x: bv64)
    ensures ((((x >> 24) as bv40) as bv64) << 24) | (((x & 0xffffff) as bv24) as bv64) == x
  {
  }

  lemma Turned24(x: bv64)
    ensures ((x >> 24) | (x << 40)) as nat
         == 0x10000000000 * (((x & 0xffffff) as bv24) as nat) + (((x >> 24) as bv40) as nat)
  {
  }

  lemma CutValue24(h: bv40, l: bv24) returns (v: nat, hn: nat, ln: nat)
    ensures v == Value(((h as bv64) << 24) | (l as bv64)) == 0x1000000 * hn + ln
    ensures hn == h as nat && ln == l as nat && ln < 0x1000000
  {
    Cut24(h, l);
    v, hn, ln := Value(((h as bv64) << 24) | (l as bv64)), h as nat, l as nat;
  }

  lemma Whole24(x: bv64) returns (v: nat)
    ensures v == Value(x)
    ensures v == Value(((((x >> 24) as bv40) as bv64) << 24) | (((x & 0xffffff) as bv24) as bv64))
  {
    v := Value(x);
    Uncut24(x);
  }

  lemma TurnedValue24(x: bv64) returns (v: nat, hn: nat, ln: nat)
    ensures v == Value((x >> 24) | (x << 40)) == 0x10000000000 * ln + hn
    ensures hn == ((x >> 24) as bv40) as nat && ln == ((x & 0xffffff) as bv24) as nat
  {
    Turned24(x);
    v := Value((x >> 24) | (x << 40));
    hn, ln := ((x >> 24) as bv40) as nat, ((x & 0xffffff) as bv24) as nat;
  }

  lemma Parts24(x: bv64) returns (h: nat, l: nat)
    ensures Value(x) == 0x1000000 * h + l && l < 0x1000000
    ensures Value((x >> 24) | (x << 40)) == 0x10000000000 * l + h
  {
    var v := Whole24(x);
    var v', t, h', l';
    v', h, l := CutValue24((x >> 24) as bv40, (x & 0xffffff) as bv24);
    t, h', l' := TurnedValue24(x);
  }

  lemma Turn24(num: Num, x: bv64) returns (z: bv64)
    requires IsNum(num)
    ensures z == (x >> 24) | (x << 40) && num(z) == Rotr64(num(x), 24)
  {
    z := (x >> 24) | (x << 40);
    var h, l := Parts24(x);
    Powers();
    RotrIs(Value(x), 24, 0x1000000, 0x10000000000, h, l);
    assert num(z) == Value(z) && num(x) == Value(x);
  }

  lemma Cut16(h: bv48, l: bv16)
    ensures (((h as bv64) << 16) | (l as bv64)) as nat == 0x10000 * (h as nat) + (l as nat)
  {
  }

  lemma Uncut16(x: bv64)
    ensures ((((x >> 16) as bv48) as bv64) << 16) | (((x & 0xffff) as bv16) as bv64) == x
  {
  }

  lemma Turned16(x: bv64)
    ensures ((x >> 16) | (x << 48)) as nat
         == 0x1000000000000 * (((x & 0xffff) as bv16) as nat) + (((x >> 16) as bv48) as nat)
  {
  }

  lemma CutValue16(h: bv48, l: bv16) returns (v: nat, hn: nat, ln: nat)
    ensures v == Value(((h as bv64) << 16) | (l as bv64)) == 0x10000 * hn + ln
    ensures hn == h as nat && ln == l as nat && ln < 0x10000
  {
    Cut16(h, l);
    v, hn, ln := Value(((h as bv64) << 16) | (l as bv64)), h as nat, l as nat;
  }

  lemma Whole16(x: bv64) returns (v: nat)
    ensures v == Value(x)
    ensures v == Value(((((x >> 16) as bv48) as bv64) << 16) | (((x & 0xffff) as bv16) as bv64))
  {
    v := Value(x);
    Uncut16(x);
  }

  lemma TurnedValue16(x: bv64) returns (v: nat, hn: nat, ln: nat)
    ensures v == Value((x >> 16) | (x << 48)) == 0x1000000000000 * ln + hn
    ensures hn == ((x >> 16) as bv48) as nat && ln == ((x & 0xffff) as bv16) as nat
  {
    Turned16(x);
    v := Value((x >> 16) | (x << 48));
    hn, ln := ((x >> 16) as bv48) as nat, ((x & 0xffff) as bv16) as nat;
  }

  lemma Parts16(x: bv64) returns (h: nat, l: nat)
    ensures Value(x) == 0x10000 * h + l && l < 0x10000
    ensures Value((x >> 16) | (x << 48)) == 0x1000000000000 * l + h
  {
    var v := Whole16(x);
    var v', t, h', l';
    v', h, l := CutValue16((x >> 16) as bv48, (x & 0xffff) as bv16);
    t, h', l' := TurnedValue16(x);
  }

  lemma Turn16(num: Num, x: bv64) returns (z: bv64)
    requires IsNum(num)
    ensures z == (x >> 16) | (x << 48) && num(z) == Rotr64(num(x), 16)
  {
    z := (x >> 16) | (x << 48);
    var h, l := Parts16(x);
    Powers();
    RotrIs(Value(x), 16, 0x10000, 0x1000000000000, h, l);
    assert num(z) == Value(z) && num(x) == Value(x);
  }

  lemma Cut63(h: bv1, l: bv63)
    ensures (((h as bv64) << 63) | (l as bv64)) as nat == 0x8000000000000000 * (h as nat) + (l as nat)
  {
  }

  lemma Uncut63(x: bv64)
    ensures ((((x >> 63) as bv1) as bv64) << 63) | (((x & 0x7fffffffffffffff) as bv63) as bv64) == x
  {
  }

  lemma Turned63(x: bv64)
    ensures ((x >> 63) | (x << 1)) as nat
         == 0x2 * (((x & 0x7fffffffffffffff) as bv63) as nat) + (((x >> 63) as bv1) as nat)
  {
  }

  lemma CutValue63(h: bv1, l: bv63) returns (v: nat, hn: nat, ln: nat)
    ensures v == Value(((h as bv64) << 63) | (l as bv64)) == 0x8000000000000000 * hn + ln
    ensures hn == h as nat && ln == l as nat && ln < 0x8000000000000000
  {
    Cut63(h, l);
    v, hn, ln := Value(((h as bv64) << 63) | (l as bv64)), h as nat, l as nat;
  }

  lemma Whole63(x: bv64) returns (v: nat)
    ensures v == Value(x)
    ensures v == Value(((((x >> 63) as bv1) as bv64) << 63) | (((x & 0x7fffffffffffffff) as bv63) as bv64))
  {
    v := Value(x);
    Uncut63(x);
  }

  lemma TurnedValue63(x: bv64) returns (v: nat, hn: nat, ln: nat)
    ensures v == Value((x >> 63) | (x << 1)) == 0x2 * ln + hn
    ensures hn == ((x >> 63) as bv1) as nat && ln == ((x & 0x7fffffffffffffff) as bv63) as nat
  {
    Turned63(x);
    v := Value((x >> 63) | (x << 1));
    hn, ln := ((x >> 63) as bv1) as nat, ((x & 0x7fffffffffffffff) as bv63) as nat;
  }

  lemma Parts63(x: bv64) returns (h: nat, l: nat)
    ensures Value(x) == 0x8000000000000000 * h + l && l < 0x8000000000000000
    ensures Value((x >> 63) | (x << 1)) == 0x2 * l + h
  {
    var v := Whole63(x);
    var v', t, h', l';
    v', h, l := CutValue63((x >> 63) as bv1, (x & 0x7fffffffffffffff) as bv63);
    t, h', l' := TurnedValue63(x);
  }

  lemma Turn63(num: Num, x: bv64) returns (z: bv64)
    requires IsNum(num)
    ensures z == (x >> 63) | (x << 1) && num(z) == Rotr64(num(x), 63)
  {
    z := (x >> 63) | (x << 1);
    var h, l := Parts63(x);
    Powers();
    RotrIs(Value(x), 63, 0x8000000000000000, 0x2, h, l);
    assert num(z) == Value(z) && num(x) == Value(x);
  }
}
