/**
 A known answer for the compression function: the 128 bytes 0 to 127, hashed by BLAKE2b-512
 without a key, round by round. The message words are all different, so every entry of the
 schedule, every constant and every distance takes part.
 */
module KnownAnswer {
  import opened Words
  import opened WordNumbers
  import opened Blake2b

  // ------------------------------------------------------------------ one call of G, on numbers

  /** The operations of section 2.1, by names that do not unfold. */
  datatype Ops = Ops(add: (nat, nat) -> nat, xor: (nat, nat) -> nat, rot: (nat, Shift) -> nat)

  ghost predicate AreOps(o: Ops) {
    && (forall a: nat, b: nat {:trigger Sum(a, b)} :: o.add(a, b) == Sum(a, b))
    && (forall a: nat, b: nat {:trigger Xor(a, b)} :: o.xor(a, b) == Xor(a, b))
    && (forall x: nat, n: Shift {:trigger Rotr64(x, n)} :: o.rot(x, n) == Rotr64(x, n))
  }

  ghost predicate GSteps(o: Ops, a: nat, b: nat, c: nat, d: nat, x: nat, y: nat,
                         a1: nat, b1: nat, c1: nat, d1: nat, a2: nat, b2: nat, c2: nat, d2: nat)
  {
    && GHalf(o, a, b, c, d, x, 32, 24, a1, b1, c1, d1) && GHalf(o, a1, b1, c1, d1, y, 16, 63, a2, b2, c2, d2)
  }

  ghost predicate GHalf(o: Ops, a: nat, b: nat, c: nat, d: nat, x: nat, n: Shift, n': Shift,
                        a1: nat, b1: nat, c1: nat, d1: nat)
  {
    && a1 == o.add(o.add(a, b), x) && d1 == o.rot(o.xor(d, a1), n)
    && c1 == o.add(c, d1) && b1 == o.rot(o.xor(b, c1), n')
  }

  ghost predicate IsG(o: Ops, a: nat, b: nat, c: nat, d: nat, x: nat, y: nat, a2: nat, b2: nat, c2: nat, d2: nat) {
    exists a1, b1, c1, d1 :: GSteps(o, a, b, c, d, x, y, a1, b1, c1, d1, a2, b2, c2, d2)
  }

  ghost predicate Apart(q: Slot) {
    q.a != q.b && q.a != q.c && q.a != q.d && q.b != q.c && q.b != q.d && q.c != q.d
  }

  ghost function Four(v: Vector, q: Slot, a: nat, b: nat, c: nat, d: nat): Vector {
    v[q.a := a][q.b := b][q.c := c][q.d := d]
  }

  lemma AddAt(o: Ops, v: Vector, a: Index, b: Index, x: nat, z: nat)
    requires AreOps(o) && z == o.add(o.add(v[a], v[b]), x)
    ensures AddStep(v, a, b, x) == v[a := z]
  {
    assert Sum(Sum(v[a], v[b]), x) == z;
    ModSum(v[a] + v[b], x);
  }

  lemma PlainAddAt(o: Ops, v: Vector, a: Index, b: Index, z: nat)
    requires AreOps(o) && z == o.add(v[a], v[b])
    ensures AddStep(v, a, b, 0) == v[a := z]
  {
    assert Sum(v[a], v[b]) == z;
  }

  lemma RotAt(o: Ops, v: Vector, d: Index, a: Index, n: Shift, z: nat)
    requires AreOps(o) && z == o.rot(o.xor(v[d], v[a]), n)
    ensures RotStep(v, d, a, n) == v[d := z]
  {
    assert Rotr64(Xor(v[d], v[a]), n) == z;
  }

  ghost function HalfStep(v: Vector, q: Slot, x: nat, n: Shift, n': Shift): Vector {
    RotStep(AddStep(RotStep(AddStep(v, q.a, q.b, x), q.d, q.a, n), q.c, q.d, 0), q.b, q.c, n')
  }

  lemma MixIsHalves(v: Vector, q: Slot, x: nat, y: nat)
    ensures Mix(v, q, x, y) == HalfStep(HalfStep(v, q, x, 32, 24), q, y, 16, 63)
  {
  }

  lemma HalfMix(o: Ops, v: Vector, q: Slot, x: nat, n: Shift, n': Shift, a: nat, b: nat, c: nat, d: nat)
    requires AreOps(o) && Apart(q) && GHalf(o, v[q.a], v[q.b], v[q.c], v[q.d], x, n, n', a, b, c, d)
    ensures HalfStep(v, q, x, n, n') == Four(v, q, a, b, c, d)
  {
    AddAt(o, v, q.a, q.b, x, a);
    RotAt(o, v[q.a := a], q.d, q.a, n, d);
    PlainAddAt(o, v[q.a := a][q.d := d], q.c, q.d, c);
    RotAt(o, v[q.a := a][q.d := d][q.c := c], q.b, q.c, n', b);
    assert v[q.a := a][q.d := d][q.c := c][q.b := b] == Four(v, q, a, b, c, d);
  }

  lemma FourTwice(v: Vector, q: Slot, a: nat, b: nat, c: nat, d: nat, a': nat, b': nat, c': nat, d': nat)
    requires Apart(q)
    ensures var w := Four(v, q, a, b, c, d);
            w[q.a] == a && w[q.b] == b && w[q.c] == c && w[q.d] == d
    ensures Four(Four(v, q, a, b, c, d), q, a', b', c', d') == Four(v, q, a', b', c', d')
  {
  }

  lemma MixAt(o: Ops, v: Vector, q: Slot, x: nat, y: nat, a: nat, b: nat, c: nat, d: nat)
    requires AreOps(o) && Apart(q) && IsG(o, v[q.a], v[q.b], v[q.c], v[q.d], x, y, a, b, c, d)
    ensures Mix(v, q, x, y) == Four(v, q, a, b, c, d)
  {
    var a1, b1, c1, d1 :| GSteps(o, v[q.a], v[q.b], v[q.c], v[q.d], x, y, a1, b1, c1, d1, a, b, c, d);
    MixIsHalves(v, q, x, y);
    HalfMix(o, v, q, x, 32, 24, a1, b1, c1, d1);
    FourTwice(v, q, a1, b1, c1, d1, a, b, c, d);
    HalfMix(o, Four(v, q, a1, b1, c1, d1), q, y, 16, 63, a, b, c, d);
  }

  /** `g` is the mixing function, by a name that does not unfold. */
  ghost predicate Mixes(o: Ops, g: Mixer) {
    forall v: Vector, q: Slot, x: nat, y: nat, a: nat, b: nat, c: nat, d: nat
      {:trigger g(v, q, x, y), Four(v, q, a, b, c, d)} ::
      Apart(q) && IsG(o, v[q.a], v[q.b], v[q.c], v[q.d], x, y, a, b, c, d) ==> g(v, q, x, y) == Four(v, q, a, b, c, d)
  }

  lemma MixMixes(o: Ops)
    requires AreOps(o)
    ensures Mixes(o, Mix)
  {
    forall v: Vector, q: Slot, x: nat, y: nat, a: nat, b: nat, c: nat, d: nat
      | Apart(q) && IsG(o, v[q.a], v[q.b], v[q.c], v[q.d], x, y, a, b, c, d)
      ensures Mix(v, q, x, y) == Four(v, q, a, b, c, d)
    {
      MixAt(o, v, q, x, y, a, b, c, d);
    }
  }

  lemma ColumnsJoin(v: Vector, w: Vector)
    ensures var v1 := Four(v, Slot(0, 4, 8, 12), w[0], w[4], w[8], w[12]);
            var v2 := Four(v1, Slot(1, 5, 9, 13), w[1], w[5], w[9], w[13]);
            var v3 := Four(v2, Slot(2, 6, 10, 14), w[2], w[6], w[10], w[14]);
            Four(v3, Slot(3, 7, 11, 15), w[3], w[7], w[11], w[15]) == w
  {
  }

  lemma ColumnsChain(g: Mixer, v: Vector, m: Vector, s: Row, v1: Vector, v2: Vector, v3: Vector, w: Vector)
    requires g(v, Slot(0, 4, 8, 12), m[s[0]], m[s[1]]) == v1
    requires g(v1, Slot(1, 5, 9, 13), m[s[2]], m[s[3]]) == v2
    requires g(v2, Slot(2, 6, 10, 14), m[s[4]], m[s[5]]) == v3
    requires g(v3, Slot(3, 7, 11, 15), m[s[6]], m[s[7]]) == w
    ensures Columns(g, v, m, s) == w
  {
  }

  lemma ColumnsAre(o: Ops, g: Mixer, v: Vector, m: Vector, s: Row, w: Vector)
    requires Mixes(o, g)
    requires IsG(o, v[0], v[4], v[8], v[12], m[s[0]], m[s[1]], w[0], w[4], w[8], w[12])
    requires IsG(o, v[1], v[5], v[9], v[13], m[s[2]], m[s[3]], w[1], w[5], w[9], w[13])
    requires IsG(o, v[2], v[6], v[10], v[14], m[s[4]], m[s[5]], w[2], w[6], w[10], w[14])
    requires IsG(o, v[3], v[7], v[11], v[15], m[s[6]], m[s[7]], w[3], w[7], w[11], w[15])
    ensures Columns(g, v, m, s) == w
  {
    var v1 := Four(v, Slot(0, 4, 8, 12), w[0], w[4], w[8], w[12]);
    var v2 := Four(v1, Slot(1, 5, 9, 13), w[1], w[5], w[9], w[13]);
    var v3 := Four(v2, Slot(2, 6, 10, 14), w[2], w[6], w[10], w[14]);
    assert g(v, Slot(0, 4, 8, 12), m[s[0]], m[s[1]]) == v1;
    assert g(v1, Slot(1, 5, 9, 13), m[s[2]], m[s[3]]) == v2;
    assert g(v2, Slot(2, 6, 10, 14), m[s[4]], m[s[5]]) == v3;
    ColumnsJoin(v, w);
    assert g(v3, Slot(3, 7, 11, 15), m[s[6]], m[s[7]]) == Four(v3, Slot(3, 7, 11, 15), w[3], w[7], w[11], w[15]);
    ColumnsChain(g, v, m, s, v1, v2, v3, w);
  }

  lemma DiagonalsJoin(v: Vector, w: Vector)
    ensures var v1 := Four(v, Slot(0, 5, 10, 15), w[0], w[5], w[10], w[15]);
            var v2 := Four(v1, Slot(1, 6, 11, 12), w[1], w[6], w[11], w[12]);
            var v3 := Four(v2, Slot(2, 7, 8, 13), w[2], w[7], w[8], w[13]);
            Four(v3, Slot(3, 4, 9, 14), w[3], w[4], w[9], w[14]) == w
  {
  }

  lemma DiagonalsChain(g: Mixer, v: Vector, m: Vector, s: Row, v1: Vector, v2: Vector, v3: Vector, w: Vector)
    requires g(v, Slot(0, 5, 10, 15), m[s[8]], m[s[9]]) == v1
    requires g(v1, Slot(1, 6, 11, 12), m[s[10]], m[s[11]]) == v2
    requires g(v2, Slot(2, 7, 8, 13), m[s[12]], m[s[13]]) == v3
    requires g(v3, Slot(3, 4, 9, 14), m[s[14]], m[s[15]]) == w
    ensures Diagonals(g, v, m, s) == w
  {
  }

  lemma DiagonalsAre(o: Ops, g: Mixer, v: Vector, m: Vector, s: Row, w: Vector)
    requires Mixes(o, g)
    requires IsG(o, v[0], v[5], v[10], v[15], m[s[8]], m[s[9]], w[0], w[5], w[10], w[15])
    requires IsG(o, v[1], v[6], v[11], v[12], m[s[10]], m[s[11]], w[1], w[6], w[11], w[12])
    requires IsG(o, v[2], v[7], v[8], v[13], m[s[12]], m[s[13]], w[2], w[7], w[8], w[13])
    requires IsG(o, v[3], v[4], v[9], v[14], m[s[14]], m[s[15]], w[3], w[4], w[9], w[14])
    ensures Diagonals(g, v, m, s) == w
  {
    var v1 := Four(v, Slot(0, 5, 10, 15), w[0], w[5], w[10], w[15]);
    var v2 := Four(v1, Slot(1, 6, 11, 12), w[1], w[6], w[11], w[12]);
    var v3 := Four(v2, Slot(2, 7, 8, 13), w[2], w[7], w[8], w[13]);
    assert g(v, Slot(0, 5, 10, 15), m[s[8]], m[s[9]]) == v1;
    assert g(v1, Slot(1, 6, 11, 12), m[s[10]], m[s[11]]) == v2;
    assert g(v2, Slot(2, 7, 8, 13), m[s[12]], m[s[13]]) == v3;
    DiagonalsJoin(v, w);
    assert g(v3, Slot(3, 4, 9, 14), m[s[14]], m[s[15]]) == Four(v3, Slot(3, 4, 9, 14), w[3], w[4], w[9], w[14]);
    DiagonalsChain(g, v, m, s, v1, v2, v3, w);
  }

  // ------------------------------------------------------------------ one call of G, on words

  lemma Plus(o: Ops, num: Num, x: bv64, y: bv64) returns (z: bv64)
    requires IsNum(num) && AreOps(o)
    ensures z == x + y && num(z) == o.add(num(x), num(y))
  {
    z := AddOp(num, x, y);
  }

  lemma Either(o: Ops, num: Num, x: bv64, y: bv64) returns (z: bv64)
    requires IsNum(num) && AreOps(o)
    ensures z == x ^ y && num(z) == o.xor(num(x), num(y))
  {
    z := XorOp(num, x, y);
  }

  lemma Halves(o: Ops, num: Num, x: bv64) returns (z: bv64)
    requires IsNum(num) && AreOps(o)
    ensures z == (x >> 32) | (x << 32) && num(z) == o.rot(num(x), 32)
  {
    z := Turn32(num, x);
  }

  lemma XorTurn24(o: Ops, num: Num, x: bv64, y: bv64) returns (z: bv64)
    requires IsNum(num) && AreOps(o)
    ensures z == ((x ^ y) >> 24) | ((x ^ y) << 40) && num(z) == o.rot(o.xor(num(x), num(y)), 24)
  {
    var e := XorOp(num, x, y);
    z := Turn24(num, e);
  }

  lemma XorTurn16(o: Ops, num: Num, x: bv64, y: bv64) returns (z: bv64)
    requires IsNum(num) && AreOps(o)
    ensures z == ((x ^ y) >> 16) | ((x ^ y) << 48) && num(z) == o.rot(o.xor(num(x), num(y)), 16)
  {
    var e := XorOp(num, x, y);
    z := Turn16(num, e);
  }

  lemma XorTurn63(o: Ops, num: Num, x: bv64, y: bv64) returns (z: bv64)
    requires IsNum(num) && AreOps(o)
    ensures z == ((x ^ y) >> 63) | ((x ^ y) << 1) && num(z) == o.rot(o.xor(num(x), num(y)), 63)
  {
    var e := XorOp(num, x, y);
    z := Turn63(num, e);
  }

  /** The words G goes through, and what they stand for. */
  lemma WordG(o: Ops, num: Num, a: bv64, b: bv64, c: bv64, d: bv64, x: bv64, y: bv64)
    returns (t1: bv64, a1: bv64, e1: bv64, d1: bv64, c1: bv64, b1: bv64,
             t2: bv64, a2: bv64, d2: bv64, c2: bv64, b2: bv64)
    requires IsNum(num) && AreOps(o)
    ensures t1 == a + b && a1 == t1 + x && e1 == d ^ a1 && d1 == (e1 >> 32) | (e1 << 32)
    ensures c1 == c + d1 && b1 == ((b ^ c1) >> 24) | ((b ^ c1) << 40)
    ensures t2 == a1 + b1 && a2 == t2 + y && d2 == ((d1 ^ a2) >> 16) | ((d1 ^ a2) << 48)
    ensures c2 == c1 + d2 && b2 == ((b1 ^ c2) >> 63) | ((b1 ^ c2) << 1)
    ensures IsG(o, num(a), num(b), num(c), num(d), num(x), num(y), num(a2), num(b2), num(c2), num(d2))
  {
    t1 := Plus(o, num, a, b);
    a1 := Plus(o, num, t1, x);
    e1 := Either(o, num, d, a1);
    d1 := Halves(o, num, e1);
    c1 := Plus(o, num, c, d1);
    b1 := XorTurn24(o, num, b, c1);
    t2 := Plus(o, num, a1, b1);
    a2 := Plus(o, num, t2, y);
    d2 := XorTurn16(o, num, d1, a2);
    c2 := Plus(o, num, c1, d2);
    b2 := XorTurn63(o, num, b1, c2);
    assert GSteps(o, num(a), num(b), num(c), num(d), num(x), num(y),
                  num(a1), num(b1), num(c1), num(d1), num(a2), num(b2), num(c2), num(d2));
  }

  type Words16 = v: seq<bv64> | |v| == 16 witness seq(16, _ => 0)

  ghost function Nums(num: Num, v: seq<bv64>): (r: seq<nat>)
    ensures |r| == |v| && forall i :: 0 <= i < |v| ==> r[i] == num(v[i])
  {
    seq(|v|, i requires 0 <= i < |v| => num(v[i]))
  }

  ghost predicate ColumnsGo(o: Ops, num: Num, v: Words16, m: Words16, s: Row, w: Words16) {
    && IsG(o, num(v[0]), num(v[4]), num(v[8]), num(v[12]), num(m[s[0]]), num(m[s[1]]),
           num(w[0]), num(w[4]), num(w[8]), num(w[12]))
    && IsG(o, num(v[1]), num(v[5]), num(v[9]), num(v[13]), num(m[s[2]]), num(m[s[3]]),
           num(w[1]), num(w[5]), num(w[9]), num(w[13]))
    && IsG(o, num(v[2]), num(v[6]), num(v[10]), num(v[14]), num(m[s[4]]), num(m[s[5]]),
           num(w[2]), num(w[6]), num(w[10]), num(w[14]))
    && IsG(o, num(v[3]), num(v[7]), num(v[11]), num(v[15]), num(m[s[6]]), num(m[s[7]]),
           num(w[3]), num(w[7]), num(w[11]), num(w[15]))
  }

  lemma ColumnsValue(o: Ops, g: Mixer, num: Num, v: Words16, m: Words16, s: Row, w: Words16)
    requires Mixes(o, g) && ColumnsGo(o, num, v, m, s, w)
    ensures Columns(g, Nums(num, v), Nums(num, m), s) == Nums(num, w)
  {
    ColumnsAre(o, g, Nums(num, v), Nums(num, m), s, Nums(num, w));
  }

  ghost predicate DiagonalsGo(o: Ops, num: Num, v: Words16, m: Words16, s: Row, w: Words16) {
    && IsG(o, num(v[0]), num(v[5]), num(v[10]), num(v[15]), num(m[s[8]]), num(m[s[9]]),
           num(w[0]), num(w[5]), num(w[10]), num(w[15]))
    && IsG(o, num(v[1]), num(v[6]), num(v[11]), num(v[12]), num(m[s[10]]), num(m[s[11]]),
           num(w[1]), num(w[6]), num(w[11]), num(w[12]))
    && IsG(o, num(v[2]), num(v[7]), num(v[8]), num(v[13]), num(m[s[12]]), num(m[s[13]]),
           num(w[2]), num(w[7]), num(w[8]), num(w[13]))
    && IsG(o, num(v[3]), num(v[4]), num(v[9]), num(v[14]), num(m[s[14]]), num(m[s[15]]),
           num(w[3]), num(w[4]), num(w[9]), num(w[14]))
  }

  lemma DiagonalsValue(o: Ops, g: Mixer, num: Num, v: Words16, m: Words16, s: Row, w: Words16)
    requires Mixes(o, g) && DiagonalsGo(o, num, v, m, s, w)
    ensures Diagonals(g, Nums(num, v), Nums(num, m), s) == Nums(num, w)
  {
    DiagonalsAre(o, g, Nums(num, v), Nums(num, m), s, Nums(num, w));
  }

  /** A round, by way of the words after its first half. */
  ghost predicate RoundGoes(o: Ops, num: Num, v: Words16, m: Words16, s: Row, w: Words16) {
    exists mid :: ColumnsGo(o, num, v, m, s, mid) && DiagonalsGo(o, num, mid, m, s, w)
  }

  const MESSAGE: Words16 := [
    0x0706050403020100, 0x0f0e0d0c0b0a0908, 0x1716151413121110, 0x1f1e1d1c1b1a1918,
    0x2726252423222120, 0x2f2e2d2c2b2a2928, 0x3736353433323130, 0x3f3e3d3c3b3a3938,
    0x4746454443424140, 0x4f4e4d4c4b4a4948, 0x5756555453525150, 0x5f5e5d5c5b5a5958,
    0x6766656463626160, 0x6f6e6d6c6b6a6968, 0x7776757473727170, 0x7f7e7d7c7b7a7978]

  const S0: Words16 := [
    0x6a09e667f2bdc948, 0xbb67ae8584caa73b, 0x3c6ef372fe94f82b, 0xa54ff53a5f1d36f1,
    0x510e527fade682d1, 0x9b05688c2b3e6c1f, 0x1f83d9abfb41bd6b, 0x5be0cd19137e2179,
    0x6a09e667f3bcc908, 0xbb67ae8584caa73b, 0x3c6ef372fe94f82b, 0xa54ff53a5f1d36f1,
    0x510e527fade68251, 0x9b05688c2b3e6c1f, 0xe07c265404be4294, 0x5be0cd19137e2179]

  const S1: Words16 := [
    0x87ee2c12dc562ac5, 0xe0ef8de36d08cf56, 0x97c8855d0faaeafc, 0xa859ce50aab48074,
    0xa93bf237e8feab7e, 0xe5a86d979f4273d4, 0xa21c4881eebdabe2, 0x5ae5c0bb4957ddbe,
    0x636a9d55d7b54898, 0xdfa71c8f35b77475, 0x8d872828f3945ff4, 0x716bcabab3b61390,
    0x7c7c7b4242f646fb, 0x6318aae6cf452590, 0x99b519b03687dd7b, 0x77635110f0911827]

  const S2: Words16 := [
    0x0cb6b74c99372042, 0x9ec3dd149ab55a94, 0xc8a393df5c3a5b22, 0xf0f1ffab90fca84a,
    0x502f19d714a82802, 0xd064149fa7beeb22, 0xed04099b0b35bb5b, 0x1472344dad7d57bf,
    0x4d2c668267d74f1f, 0x74120c4f37718af8, 0x53dc172fa8885753, 0x6d616b04e9313831,
    0x140351f446a6dbc5, 0x366546d2f9b0b7e9, 0x06ee73467a4e8621, 0xc623115e67b19887]

  const S3: Words16 := [
    0x363b88c9e5c34597, 0x9f3444934666700e, 0xdeed88d524df660c, 0x3ea223d521a0a4af,
    0x644b464b7d490145, 0x28b529566c856de5, 0xae9256b5096820b6, 0x372f64aa54f6d097,
    0x77d5d275e5f49de5, 0xa36582305c84b7f1, 0x616790560d5fc2fc, 0x2d33108211bff04b,
    0x56669ed4836e3971, 0xe1ceb84bcb8aae5d, 0x7c76d3f4d7571e4d, 0x166be24f50c6a50f]

  const S4: Words16 := [
    0x5a63308eee7a9248, 0xf7169b44896ad6cc, 0xb50779263e3a64be, 0xd6008ebfbe33097c,
    0x8e077f9efb54f7a8, 0xf41328480c08f319, 0x6a87a4083d4f73ce, 0xc45ee32ea583e314,
    0xbd2d18c3dcce06ee, 0x2ec8d16833f1c982, 0x720a50a06d123d16, 0xd28311d0edc99c02,
    0xb3bb8557d42ef574, 0xd56033eb08b713a9, 0x69dbee8bc2fd5fd1, 0x6464c22965c88b48]

  const S5: Words16 := [
    0x75d1c3a6f493737e, 0x10eb6b299486f774, 0x4ca3d1e1ad47dbf8, 0xc094e252c36665c4,
    0x7ac88d2e8e59ab29, 0xad5c19dd2cf856b8, 0x8049b723c3c551a8, 0x7fcc31309cdcd184,
    0x002725122c0c7582, 0x90dfac1f87a06690, 0x415234177690e754, 0x25b53ad7a5e34984,
    0xf67a6e0bc0b2cd8b, 0x27d45253bfdcdadc, 0x9fca888d5c14cc68, 0x566875c584b6b141]

  const S6: Words16 := [
    0x2ac6a92bb9c11d37, 0xf506e6594244c601, 0x7f765f49a6053c33, 0x908da1da9f98bb42,
    0x8e0c63439ff0eeed, 0x907346ef6e3f05ef, 0xf027286f0334110b, 0x8ec217a5d9f77e20,
    0x9ba9ae774a3fe5ac, 0x5e92e125d5cb844c, 0xfcd7d201025cd242, 0x3b139a80b52b63ed,
    0xc778ed2e9009b9d4, 0xcd9d0038a4ab2b79, 0x575d14116428bd4f, 0xe520020af82b3121]

  const S7: Words16 := [
    0xf1d4799d6685f26a, 0x134da394efd37c4f, 0xa63bb6cf3deecc23, 0xce47f62598a42fb0,
    0xaba591a1e0d6038e, 0xb1d70d59ec49a768, 0xd3d84a1a99d9fb99, 0x9eb959c19b867d73,
    0xb5dc75e2b8ca7ffc, 0x72433209a46fadbb, 0x588a99fe3e9204c5, 0xc4d33a5885c45f4f,
    0xf6a22fcb30419784, 0xe87fe3d697ba8596, 0x3cf0c4fc69a48308, 0x9ff717e9641f254d]

  const S8: Words16 := [
    0x4e8212337c087683, 0x2cee433b83459545, 0x5f661019ec052d63, 0xccd46756018fb046,
    0x51fbec755804b265, 0x877f962b401f7394, 0xe5a0397b442de915, 0xec810afec7757b88,
    0x58d2b5975d51279a, 0x7ce18c0569e30325, 0x6d2434b9e3a09e94, 0xb0adfe138a159ccd,
    0x03b074b17d7f0864, 0x4485cc1aed01b0be, 0xc0edef4fb64039f5, 0x564e9c1d7f2d0087]

  const S9: Words16 := [
    0x55706df4f6d2c8d7, 0xe66c32920624db6a, 0xfee85647c19e99cb, 0x12154ab3fc7efb15,
    0x80848f6c55f5928d, 0xad0230647c622820, 0xf795864952fe502c, 0xd97fac464674ef84,
    0x6c8535b0368e8001, 0x364db88ffd890650, 0x8db8a46b5ce63d9e, 0x43d0373684027346,
    0x09793da1cbea1aa2, 0xd8a4b3dff02c0ff2, 0x1f11b68dd4b675e3, 0x81efaefc1db26f42]

  const S10: Words16 := [
    0xe03f56ce20ac9b8e, 0x8569c5ce0b8060f6, 0x3ea6040c7ddf4664, 0xd6dcda83481ad8c3,
    0x0e4e985e09112b90, 0x6fa0fc5c5466660e, 0xf67de03356cd4000, 0xa0b8fe64144e581d,
    0xeac2dce5d4939780, 0x5505eb1a3862f3a2, 0x4bcfb7ef52721e5b, 0x4a64702ea64f6318,
    0xa2fbb9b96903dfdf, 0x75b5ad763575f3f7, 0xb747c9de8ef149da, 0x81b3c4b2e0f8f215]

  const S11: Words16 := [
    0x97a32c6efcd82059, 0x0a03839f325818a6, 0xdb578d0d2d3e4b18, 0xe33f974a8a83062f,
    0x0ef3f03da3a3e102, 0xb4c914c5001da029, 0x8bb6178bc441aedc, 0x117edd498ff4a84d,
    0x6a90dffe0a4252c7, 0xd0d788539ddb9d35, 0x03abf69457776c0f, 0x826d06d08ad74dc4,
    0xab47e9be98655776, 0xab9adde2efaa4dde, 0xe887815cf67b883b, 0x4291fac32234abfd]

  const S12: Words16 := [
    0xf6d9360fe5e06aae, 0x37f993b386c67f4d, 0xba62cb94eee374b9, 0x5c5e99d1420b52a5,
    0x5aaa9dd00bc93f88, 0x35d54d904a443b60, 0x588e73d2e6e1352b, 0x36e128e87f68b8d1,
    0x463297f46fbebac5, 0x2d5c83577d8c26d3, 0xb4f321d9b008df34, 0xf76f273da2fa1abc,
    0x0f9ffc039fdb72d5, 0xcfcaf4c1a5ca4e70, 0x7eadba76e361c2a2, 0x78d046fca04bf528]

  lemma Round0(o: Ops, num: Num)
    requires IsNum(num) && AreOps(o)
    ensures RoundGoes(o, num, S0, MESSAGE, ROW0, S1)
  {
    var t0, p0, e0, q0, r0, s0, u0, a0, d0, c0, b0 :=
      WordG(o, num, S0[0], S0[4], S0[8], S0[12], MESSAGE[0], MESSAGE[1]);
    var t1, p1, e1, q1, r1, s1, u1, a1, d1, c1, b1 :=
      WordG(o, num, S0[1], S0[5], S0[9], S0[13], MESSAGE[2], MESSAGE[3]);
    var t2, p2, e2, q2, r2, s2, u2, a2, d2, c2, b2 :=
      WordG(o, num, S0[2], S0[6], S0[10], S0[14], MESSAGE[4], MESSAGE[5]);
    var t3, p3, e3, q3, r3, s3, u3, a3, d3, c3, b3 :=
      WordG(o, num, S0[3], S0[7], S0[11], S0[15], MESSAGE[6], MESSAGE[7]);
    var t4, p4, e4, q4, r4, s4, u4, a4, d4, c4, b4 :=
      WordG(o, num, a0, b1, c2, d3, MESSAGE[8], MESSAGE[9]);
    var t5, p5, e5, q5, r5, s5, u5, a5, d5, c5, b5 :=
      WordG(o, num, a1, b2, c3, d0, MESSAGE[10], MESSAGE[11]);
    var t6, p6, e6, q6, r6, s6, u6, a6, d6, c6, b6 :=
      WordG(o, num, a2, b3, c0, d1, MESSAGE[12], MESSAGE[13]);
    var t7, p7, e7, q7, r7, s7, u7, a7, d7, c7, b7 :=
      WordG(o, num, a3, b0, c1, d2, MESSAGE[14], MESSAGE[15]);
    var mid: Words16 := [a0, a1, a2, a3, b0, b1, b2, b3, c0, c1, c2, c3, d0, d1, d2, d3];
    assert ColumnsGo(o, num, S0, MESSAGE, ROW0, mid);
    assert a4 == S1[0] && a5 == S1[1] && a6 == S1[2] && a7 == S1[3] && b7 == S1[4] && b4 == S1[5] && b5 == S1[6]
        && b6 == S1[7] && c6 == S1[8] && c7 == S1[9] && c4 == S1[10] && c5 == S1[11] && d5 == S1[12] && d6 == S1[13]
        && d7 == S1[14] && d4 == S1[15];
    assert DiagonalsGo(o, num, mid, MESSAGE, ROW0, S1);
  }

  lemma Round1(o: Ops, num: Num)
    requires IsNum(num) && AreOps(o)
    ensures RoundGoes(o, num, S1, MESSAGE, ROW1, S2)
  {
    var t0, p0, e0, q0, r0, s0, u0, a0, d0, c0, b0 :=
      WordG(o, num, S1[0], S1[4], S1[8], S1[12], MESSAGE[14], MESSAGE[10]);
    var t1, p1, e1, q1, r1, s1, u1, a1, d1, c1, b1 :=
      WordG(o, num, S1[1], S1[5], S1[9], S1[13], MESSAGE[4], MESSAGE[8]);
    var t2, p2, e2, q2, r2, s2, u2, a2, d2, c2, b2 :=
      WordG(o, num, S1[2], S1[6], S1[10], S1[14], MESSAGE[9], MESSAGE[15]);
    var t3, p3, e3, q3, r3, s3, u3, a3, d3, c3, b3 :=
      WordG(o, num, S1[3], S1[7], S1[11], S1[15], MESSAGE[13], MESSAGE[6]);
    var t4, p4, e4, q4, r4, s4, u4, a4, d4, c4, b4 :=
      WordG(o, num, a0, b1, c2, d3, MESSAGE[1], MESSAGE[12]);
    var t5, p5, e5, q5, r5, s5, u5, a5, d5, c5, b5 :=
      WordG(o, num, a1, b2, c3, d0, MESSAGE[0], MESSAGE[2]);
    var t6, p6, e6, q6, r6, s6, u6, a6, d6, c6, b6 :=
      WordG(o, num, a2, b3, c0, d1, MESSAGE[11], MESSAGE[7]);
    var t7, p7, e7, q7, r7, s7, u7, a7, d7, c7, b7 :=
      WordG(o, num, a3, b0, c1, d2, MESSAGE[5], MESSAGE[3]);
    var mid: Words16 := [a0, a1, a2, a3, b0, b1, b2, b3, c0, c1, c2, c3, d0, d1, d2, d3];
    assert ColumnsGo(o, num, S1, MESSAGE, ROW1, mid);
    assert a4 == S2[0] && a5 == S2[1] && a6 == S2[2] && a7 == S2[3] && b7 == S2[4] && b4 == S2[5] && b5 == S2[6]
        && b6 == S2[7] && c6 == S2[8] && c7 == S2[9] && c4 == S2[10] && c5 == S2[11] && d5 == S2[12] && d6 == S2[13]
        && d7 == S2[14] && d4 == S2[15];
    assert DiagonalsGo(o, num, mid, MESSAGE, ROW1, S2);
  }

  lemma Round2(o: Ops, num: Num)
    requires IsNum(num) && AreOps(o)
    ensures RoundGoes(o, num, S2, MESSAGE, ROW2, S3)
  {
    var t0, p0, e0, q0, r0, s0, u0, a0, d0, c0, b0 :=
      WordG(o, num, S2[0], S2[4], S2[8], S2[12], MESSAGE[11], MESSAGE[8]);
    var t1, p1, e1, q1, r1, s1, u1, a1, d1, c1, b1 :=
      WordG(o, num, S2[1], S2[5], S2[9], S2[13], MESSAGE[12], MESSAGE[0]);
    var t2, p2, e2, q2, r2, s2, u2, a2, d2, c2, b2 :=
      WordG(o, num, S2[2], S2[6], S2[10], S2[14], MESSAGE[5], MESSAGE[2]);
    var t3, p3, e3, q3, r3, s3, u3, a3, d3, c3, b3 :=
      WordG(o, num, S2[3], S2[7], S2[11], S2[15], MESSAGE[15], MESSAGE[13]);
    var t4, p4, e4, q4, r4, s4, u4, a4, d4, c4, b4 :=
      WordG(o, num, a0, b1, c2, d3, MESSAGE[10], MESSAGE[14]);
    var t5, p5, e5, q5, r5, s5, u5, a5, d5, c5, b5 :=
      WordG(o, num, a1, b2, c3, d0, MESSAGE[3], MESSAGE[6]);
    var t6, p6, e6, q6, r6, s6, u6, a6, d6, c6, b6 :=
      WordG(o, num, a2, b3, c0, d1, MESSAGE[7], MESSAGE[1]);
    var t7, p7, e7, q7, r7, s7, u7, a7, d7, c7, b7 :=
      WordG(o, num, a3, b0, c1, d2, MESSAGE[9], MESSAGE[4]);
    var mid: Words16 := [a0, a1, a2, a3, b0, b1, b2, b3, c0, c1, c2, c3, d0, d1, d2, d3];
    assert ColumnsGo(o, num, S2, MESSAGE, ROW2, mid);
    assert a4 == S3[0] && a5 == S3[1] && a6 == S3[2] && a7 == S3[3] && b7 == S3[4] && b4 == S3[5] && b5 == S3[6]
        && b6 == S3[7] && c6 == S3[8] && c7 == S3[9] && c4 == S3[10] && c5 == S3[11] && d5 == S3[12] && d6 == S3[13]
        && d7 == S3[14] && d4 == S3[15];
    assert DiagonalsGo(o, num, mid, MESSAGE, ROW2, S3);
  }

  lemma Round3(o: Ops, num: Num)
    requires IsNum(num) && AreOps(o)
    ensures RoundGoes(o, num, S3, MESSAGE, ROW3, S4)
  {
    var t0, p0, e0, q0, r0, s0, u0, a0, d0, c0, b0 :=
      WordG(o, num, S3[0], S3[4], S3[8], S3[12], MESSAGE[7], MESSAGE[9]);
    var t1, p1, e1, q1, r1, s1, u1, a1, d1, c1, b1 :=
      WordG(o, num, S3[1], S3[5], S3[9], S3[13], MESSAGE[3], MESSAGE[1]);
    var t2, p2, e2, q2, r2, s2, u2, a2, d2, c2, b2 :=
      WordG(o, num, S3[2], S3[6], S3[10], S3[14], MESSAGE[13], MESSAGE[12]);
    var t3, p3, e3, q3, r3, s3, u3, a3, d3, c3, b3 :=
      WordG(o, num, S3[3], S3[7], S3[11], S3[15], MESSAGE[11], MESSAGE[14]);
    var t4, p4, e4, q4, r4, s4, u4, a4, d4, c4, b4 :=
      WordG(o, num, a0, b1, c2, d3, MESSAGE[2], MESSAGE[6]);
    var t5, p5, e5, q5, r5, s5, u5, a5, d5, c5, b5 :=
      WordG(o, num, a1, b2, c3, d0, MESSAGE[5], MESSAGE[10]);
    var t6, p6, e6, q6, r6, s6, u6, a6, d6, c6, b6 :=
      WordG(o, num, a2, b3, c0, d1, MESSAGE[4], MESSAGE[0]);
    var t7, p7, e7, q7, r7, s7, u7, a7, d7, c7, b7 :=
      WordG(o, num, a3, b0, c1, d2, MESSAGE[15], MESSAGE[8]);
    var mid: Words16 := [a0, a1, a2, a3, b0, b1, b2, b3, c0, c1, c2, c3, d0, d1, d2, d3];
    assert ColumnsGo(o, num, S3, MESSAGE, ROW3, mid);
    assert a4 == S4[0] && a5 == S4[1] && a6 == S4[2] && a7 == S4[3] && b7 == S4[4] && b4 == S4[5] && b5 == S4[6]
        && b6 == S4[7] && c6 == S4[8] && c7 == S4[9] && c4 == S4[10] && c5 == S4[11] && d5 == S4[12] && d6 == S4[13]
        && d7 == S4[14] && d4 == S4[15];
    assert DiagonalsGo(o, num, mid, MESSAGE, ROW3, S4);
  }

  lemma Round4(o: Ops, num: Num)
    requires IsNum(num) && AreOps(o)
    ensures RoundGoes(o, num, S4, MESSAGE, ROW4, S5)
  {
    var t0, p0, e0, q0, r0, s0, u0, a0, d0, c0, b0 :=
      WordG(o, num, S4[0], S4[4], S4[8], S4[12], MESSAGE[9], MESSAGE[0]);
    var t1, p1, e1, q1, r1, s1, u1, a1, d1, c1, b1 :=
      WordG(o, num, S4[1], S4[5], S4[9], S4[13], MESSAGE[5], MESSAGE[7]);
    var t2, p2, e2, q2, r2, s2, u2, a2, d2, c2, b2 :=
      WordG(o, num, S4[2], S4[6], S4[10], S4[14], MESSAGE[2], MESSAGE[4]);
    var t3, p3, e3, q3, r3, s3, u3, a3, d3, c3, b3 :=
      WordG(o, num, S4[3], S4[7], S4[11], S4[15], MESSAGE[10], MESSAGE[15]);
    var t4, p4, e4, q4, r4, s4, u4, a4, d4, c4, b4 :=
      WordG(o, num, a0, b1, c2, d3, MESSAGE[14], MESSAGE[1]);
    var t5, p5, e5, q5, r5, s5, u5, a5, d5, c5, b5 :=
      WordG(o, num, a1, b2, c3, d0, MESSAGE[11], MESSAGE[12]);
    var t6, p6, e6, q6, r6, s6, u6, a6, d6, c6, b6 :=
      WordG(o, num, a2, b3, c0, d1, MESSAGE[6], MESSAGE[8]);
    var t7, p7, e7, q7, r7, s7, u7, a7, d7, c7, b7 :=
      WordG(o, num, a3, b0, c1, d2, MESSAGE[3], MESSAGE[13]);
    var mid: Words16 := [a0, a1, a2, a3, b0, b1, b2, b3, c0, c1, c2, c3, d0, d1, d2, d3];
    assert ColumnsGo(o, num, S4, MESSAGE, ROW4, mid);
    assert a4 == S5[0] && a5 == S5[1] && a6 == S5[2] && a7 == S5[3] && b7 == S5[4] && b4 == S5[5] && b5 == S5[6]
        && b6 == S5[7] && c6 == S5[8] && c7 == S5[9] && c4 == S5[10] && c5 == S5[11] && d5 == S5[12] && d6 == S5[13]
        && d7 == S5[14] && d4 == S5[15];
    assert DiagonalsGo(o, num, mid, MESSAGE, ROW4, S5);
  }

  lemma Round5(o: Ops, num: Num)
    requires IsNum(num) && AreOps(o)
    ensures RoundGoes(o, num, S5, MESSAGE, ROW5, S6)
  {
    var t0, p0, e0, q0, r0, s0, u0, a0, d0, c0, b0 :=
      WordG(o, num, S5[0], S5[4], S5[8], S5[12], MESSAGE[2], MESSAGE[12]);
    var t1, p1, e1, q1, r1, s1, u1, a1, d1, c1, b1 :=
      WordG(o, num, S5[1], S5[5], S5[9], S5[13], MESSAGE[6], MESSAGE[10]);
    var t2, p2, e2, q2, r2, s2, u2, a2, d2, c2, b2 :=
      WordG(o, num, S5[2], S5[6], S5[10], S5[14], MESSAGE[0], MESSAGE[11]);
    var t3, p3, e3, q3, r3, s3, u3, a3, d3, c3, b3 :=
      WordG(o, num, S5[3], S5[7], S5[11], S5[15], MESSAGE[8], MESSAGE[3]);
    var t4, p4, e4, q4, r4, s4, u4, a4, d4, c4, b4 :=
      WordG(o, num, a0, b1, c2, d3, MESSAGE[4], MESSAGE[13]);
    var t5, p5, e5, q5, r5, s5, u5, a5, d5, c5, b5 :=
      WordG(o, num, a1, b2, c3, d0, MESSAGE[7], MESSAGE[5]);
    var t6, p6, e6, q6, r6, s6, u6, a6, d6, c6, b6 :=
      WordG(o, num, a2, b3, c0, d1, MESSAGE[15], MESSAGE[14]);
    var t7, p7, e7, q7, r7, s7, u7, a7, d7, c7, b7 :=
      WordG(o, num, a3, b0, c1, d2, MESSAGE[1], MESSAGE[9]);
    var mid: Words16 := [a0, a1, a2, a3, b0, b1, b2, b3, c0, c1, c2, c3, d0, d1, d2, d3];
    assert ColumnsGo(o, num, S5, MESSAGE, ROW5, mid);
    assert a4 == S6[0] && a5 == S6[1] && a6 == S6[2] && a7 == S6[3] && b7 == S6[4] && b4 == S6[5] && b5 == S6[6]
        && b6 == S6[7] && c6 == S6[8] && c7 == S6[9] && c4 == S6[10] && c5 == S6[11] && d5 == S6[12] && d6 == S6[13]
        && d7 == S6[14] && d4 == S6[15];
    assert DiagonalsGo(o, num, mid, MESSAGE, ROW5, S6);
  }

  lemma Round6(o: Ops, num: Num)
    requires IsNum(num) && AreOps(o)
    ensures RoundGoes(o, num, S6, MESSAGE, ROW6, S7)
  {
    var t0, p0, e0, q0, r0, s0, u0, a0, d0, c0, b0 :=
      WordG(o, num, S6[0], S6[4], S6[8], S6[12], MESSAGE[12], MESSAGE[5]);
    var t1, p1, e1, q1, r1, s1, u1, a1, d1, c1, b1 :=
      WordG(o, num, S6[1], S6[5], S6[9], S6[13], MESSAGE[1], MESSAGE[15]);
    var t2, p2, e2, q2, r2, s2, u2, a2, d2, c2, b2 :=
      WordG(o, num, S6[2], S6[6], S6[10], S6[14], MESSAGE[14], MESSAGE[13]);
    var t3, p3, e3, q3, r3, s3, u3, a3, d3, c3, b3 :=
      WordG(o, num, S6[3], S6[7], S6[11], S6[15], MESSAGE[4], MESSAGE[10]);
    var t4, p4, e4, q4, r4, s4, u4, a4, d4, c4, b4 :=
      WordG(o, num, a0, b1, c2, d3, MESSAGE[0], MESSAGE[7]);
    var t5, p5, e5, q5, r5, s5, u5, a5, d5, c5, b5 :=
      WordG(o, num, a1, b2, c3, d0, MESSAGE[6], MESSAGE[3]);
    var t6, p6, e6, q6, r6, s6, u6, a6, d6, c6, b6 :=
      WordG(o, num, a2, b3, c0, d1, MESSAGE[9], MESSAGE[2]);
    var t7, p7, e7, q7, r7, s7, u7, a7, d7, c7, b7 :=
      WordG(o, num, a3, b0, c1, d2, MESSAGE[8], MESSAGE[11]);
    var mid: Words16 := [a0, a1, a2, a3, b0, b1, b2, b3, c0, c1, c2, c3, d0, d1, d2, d3];
    assert ColumnsGo(o, num, S6, MESSAGE, ROW6, mid);
    assert a4 == S7[0] && a5 == S7[1] && a6 == S7[2] && a7 == S7[3] && b7 == S7[4] && b4 == S7[5] && b5 == S7[6]
        && b6 == S7[7] && c6 == S7[8] && c7 == S7[9] && c4 == S7[10] && c5 == S7[11] && d5 == S7[12] && d6 == S7[13]
        && d7 == S7[14] && d4 == S7[15];
    assert DiagonalsGo(o, num, mid, MESSAGE, ROW6, S7);
  }

  lemma Round7(o: Ops, num: Num)
    requires IsNum(num) && AreOps(o)
    ensures RoundGoes(o, num, S7, MESSAGE, ROW7, S8)
  {
    var t0, p0, e0, q0, r0, s0, u0, a0, d0, c0, b0 :=
      WordG(o, num, S7[0], S7[4], S7[8], S7[12], MESSAGE[13], MESSAGE[11]);
    var t1, p1, e1, q1, r1, s1, u1, a1, d1, c1, b1 :=
      WordG(o, num, S7[1], S7[5], S7[9], S7[13], MESSAGE[7], MESSAGE[14]);
    var t2, p2, e2, q2, r2, s2, u2, a2, d2, c2, b2 :=
      WordG(o, num, S7[2], S7[6], S7[10], S7[14], MESSAGE[12], MESSAGE[1]);
    var t3, p3, e3, q3, r3, s3, u3, a3, d3, c3, b3 :=
      WordG(o, num, S7[3], S7[7], S7[11], S7[15], MESSAGE[3], MESSAGE[9]);
    var t4, p4, e4, q4, r4, s4, u4, a4, d4, c4, b4 :=
      WordG(o, num, a0, b1, c2, d3, MESSAGE[5], MESSAGE[0]);
    var t5, p5, e5, q5, r5, s5, u5, a5, d5, c5, b5 :=
      WordG(o, num, a1, b2, c3, d0, MESSAGE[15], MESSAGE[4]);
    var t6, p6, e6, q6, r6, s6, u6, a6, d6, c6, b6 :=
      WordG(o, num, a2, b3, c0, d1, MESSAGE[8], MESSAGE[6]);
    var t7, p7, e7, q7, r7, s7, u7, a7, d7, c7, b7 :=
      WordG(o, num, a3, b0, c1, d2, MESSAGE[2], MESSAGE[10]);
    var mid: Words16 := [a0, a1, a2, a3, b0, b1, b2, b3, c0, c1, c2, c3, d0, d1, d2, d3];
    assert ColumnsGo(o, num, S7, MESSAGE, ROW7, mid);
    assert a4 == S8[0] && a5 == S8[1] && a6 == S8[2] && a7 == S8[3] && b7 == S8[4] && b4 == S8[5] && b5 == S8[6]
        && b6 == S8[7] && c6 == S8[8] && c7 == S8[9] && c4 == S8[10] && c5 == S8[11] && d5 == S8[12] && d6 == S8[13]
        && d7 == S8[14] && d4 == S8[15];
    assert DiagonalsGo(o, num, mid, MESSAGE, ROW7, S8);
  }

  lemma Round8(o: Ops, num: Num)
    requires IsNum(num) && AreOps(o)
    ensures RoundGoes(o, num, S8, MESSAGE, ROW8, S9)
  {
    var t0, p0, e0, q0, r0, s0, u0, a0, d0, c0, b0 :=
      WordG(o, num, S8[0], S8[4], S8[8], S8[12], MESSAGE[6], MESSAGE[15]);
    var t1, p1, e1, q1, r1, s1, u1, a1, d1, c1, b1 :=
      WordG(o, num, S8[1], S8[5], S8[9], S8[13], MESSAGE[14], MESSAGE[9]);
    var t2, p2, e2, q2, r2, s2, u2, a2, d2, c2, b2 :=
      WordG(o, num, S8[2], S8[6], S8[10], S8[14], MESSAGE[11], MESSAGE[3]);
    var t3, p3, e3, q3, r3, s3, u3, a3, d3, c3, b3 :=
      WordG(o, num, S8[3], S8[7], S8[11], S8[15], MESSAGE[0], MESSAGE[8]);
    var t4, p4, e4, q4, r4, s4, u4, a4, d4, c4, b4 :=
      WordG(o, num, a0, b1, c2, d3, MESSAGE[12], MESSAGE[2]);
    var t5, p5, e5, q5, r5, s5, u5, a5, d5, c5, b5 :=
      WordG(o, num, a1, b2, c3, d0, MESSAGE[13], MESSAGE[7]);
    var t6, p6, e6, q6, r6, s6, u6, a6, d6, c6, b6 :=
      WordG(o, num, a2, b3, c0, d1, MESSAGE[1], MESSAGE[4]);
    var t7, p7, e7, q7, r7, s7, u7, a7, d7, c7, b7 :=
      WordG(o, num, a3, b0, c1, d2, MESSAGE[10], MESSAGE[5]);
    var mid: Words16 := [a0, a1, a2, a3, b0, b1, b2, b3, c0, c1, c2, c3, d0, d1, d2, d3];
    assert ColumnsGo(o, num, S8, MESSAGE, ROW8, mid);
    assert a4 == S9[0] && a5 == S9[1] && a6 == S9[2] && a7 == S9[3] && b7 == S9[4] && b4 == S9[5] && b5 == S9[6]
        && b6 == S9[7] && c6 == S9[8] && c7 == S9[9] && c4 == S9[10] && c5 == S9[11] && d5 == S9[12] && d6 == S9[13]
        && d7 == S9[14] && d4 == S9[15];
    assert DiagonalsGo(o, num, mid, MESSAGE, ROW8, S9);
  }

  lemma Round9(o: Ops, num: Num)
    requires IsNum(num) && AreOps(o)
    ensures RoundGoes(o, num, S9, MESSAGE, ROW9, S10)
  {
    var t0, p0, e0, q0, r0, s0, u0, a0, d0, c0, b0 :=
      WordG(o, num, S9[0], S9[4], S9[8], S9[12], MESSAGE[10], MESSAGE[2]);
    var t1, p1, e1, q1, r1, s1, u1, a1, d1, c1, b1 :=
      WordG(o, num, S9[1], S9[5], S9[9], S9[13], MESSAGE[8], MESSAGE[4]);
    var t2, p2, e2, q2, r2, s2, u2, a2, d2, c2, b2 :=
      WordG(o, num, S9[2], S9[6], S9[10], S9[14], MESSAGE[7], MESSAGE[6]);
    var t3, p3, e3, q3, r3, s3, u3, a3, d3, c3, b3 :=
      WordG(o, num, S9[3], S9[7], S9[11], S9[15], MESSAGE[1], MESSAGE[5]);
    var t4, p4, e4, q4, r4, s4, u4, a4, d4, c4, b4 :=
      WordG(o, num, a0, b1, c2, d3, MESSAGE[15], MESSAGE[11]);
    var t5, p5, e5, q5, r5, s5, u5, a5, d5, c5, b5 :=
      WordG(o, num, a1, b2, c3, d0, MESSAGE[9], MESSAGE[14]);
    var t6, p6, e6, q6, r6, s6, u6, a6, d6, c6, b6 :=
      WordG(o, num, a2, b3, c0, d1, MESSAGE[3], MESSAGE[12]);
    var t7, p7, e7, q7, r7, s7, u7, a7, d7, c7, b7 :=
      WordG(o, num, a3, b0, c1, d2, MESSAGE[13], MESSAGE[0]);
    var mid: Words16 := [a0, a1, a2, a3, b0, b1, b2, b3, c0, c1, c2, c3, d0, d1, d2, d3];
    assert ColumnsGo(o, num, S9, MESSAGE, ROW9, mid);
    assert a4 == S10[0] && a5 == S10[1] && a6 == S10[2] && a7 == S10[3] && b7 == S10[4] && b4 == S10[5]
        && b5 == S10[6] && b6 == S10[7] && c6 == S10[8] && c7 == S10[9] && c4 == S10[10] && c5 == S10[11]
        && d5 == S10[12] && d6 == S10[13] && d7 == S10[14] && d4 == S10[15];
    assert DiagonalsGo(o, num, mid, MESSAGE, ROW9, S10);
  }

  lemma Round10(o: Ops, num: Num)
    requires IsNum(num) && AreOps(o)
    ensures RoundGoes(o, num, S10, MESSAGE, ROW0, S11)
  {
    var t0, p0, e0, q0, r0, s0, u0, a0, d0, c0, b0 :=
      WordG(o, num, S10[0], S10[4], S10[8], S10[12], MESSAGE[0], MESSAGE[1]);
    var t1, p1, e1, q1, r1, s1, u1, a1, d1, c1, b1 :=
      WordG(o, num, S10[1], S10[5], S10[9], S10[13], MESSAGE[2], MESSAGE[3]);
    var t2, p2, e2, q2, r2, s2, u2, a2, d2, c2, b2 :=
      WordG(o, num, S10[2], S10[6], S10[10], S10[14], MESSAGE[4], MESSAGE[5]);
    var t3, p3, e3, q3, r3, s3, u3, a3, d3, c3, b3 :=
      WordG(o, num, S10[3], S10[7], S10[11], S10[15], MESSAGE[6], MESSAGE[7]);
    var t4, p4, e4, q4, r4, s4, u4, a4, d4, c4, b4 :=
      WordG(o, num, a0, b1, c2, d3, MESSAGE[8], MESSAGE[9]);
    var t5, p5, e5, q5, r5, s5, u5, a5, d5, c5, b5 :=
      WordG(o, num, a1, b2, c3, d0, MESSAGE[10], MESSAGE[11]);
    var t6, p6, e6, q6, r6, s6, u6, a6, d6, c6, b6 :=
      WordG(o, num, a2, b3, c0, d1, MESSAGE[12], MESSAGE[13]);
    var t7, p7, e7, q7, r7, s7, u7, a7, d7, c7, b7 :=
      WordG(o, num, a3, b0, c1, d2, MESSAGE[14], MESSAGE[15]);
    var mid: Words16 := [a0, a1, a2, a3, b0, b1, b2, b3, c0, c1, c2, c3, d0, d1, d2, d3];
    assert ColumnsGo(o, num, S10, MESSAGE, ROW0, mid);
    assert a4 == S11[0] && a5 == S11[1] && a6 == S11[2] && a7 == S11[3] && b7 == S11[4] && b4 == S11[5]
        && b5 == S11[6] && b6 == S11[7] && c6 == S11[8] && c7 == S11[9] && c4 == S11[10] && c5 == S11[11]
        && d5 == S11[12] && d6 == S11[13] && d7 == S11[14] && d4 == S11[15];
    assert DiagonalsGo(o, num, mid, MESSAGE, ROW0, S11);
  }

  lemma Round11(o: Ops, num: Num)
    requires IsNum(num) && AreOps(o)
    ensures RoundGoes(o, num, S11, MESSAGE, ROW1, S12)
  {
    var t0, p0, e0, q0, r0, s0, u0, a0, d0, c0, b0 :=
      WordG(o, num, S11[0], S11[4], S11[8], S11[12], MESSAGE[14], MESSAGE[10]);
    var t1, p1, e1, q1, r1, s1, u1, a1, d1, c1, b1 :=
      WordG(o, num, S11[1], S11[5], S11[9], S11[13], MESSAGE[4], MESSAGE[8]);
    var t2, p2, e2, q2, r2, s2, u2, a2, d2, c2, b2 :=
      WordG(o, num, S11[2], S11[6], S11[10], S11[14], MESSAGE[9], MESSAGE[15]);
    var t3, p3, e3, q3, r3, s3, u3, a3, d3, c3, b3 :=
      WordG(o, num, S11[3], S11[7], S11[11], S11[15], MESSAGE[13], MESSAGE[6]);
    var t4, p4, e4, q4, r4, s4, u4, a4, d4, c4, b4 :=
      WordG(o, num, a0, b1, c2, d3, MESSAGE[1], MESSAGE[12]);
    var t5, p5, e5, q5, r5, s5, u5, a5, d5, c5, b5 :=
      WordG(o, num, a1, b2, c3, d0, MESSAGE[0], MESSAGE[2]);
    var t6, p6, e6, q6, r6, s6, u6, a6, d6, c6, b6 :=
      WordG(o, num, a2, b3, c0, d1, MESSAGE[11], MESSAGE[7]);
    var t7, p7, e7, q7, r7, s7, u7, a7, d7, c7, b7 :=
      WordG(o, num, a3, b0, c1, d2, MESSAGE[5], MESSAGE[3]);
    var mid: Words16 := [a0, a1, a2, a3, b0, b1, b2, b3, c0, c1, c2, c3, d0, d1, d2, d3];
    assert ColumnsGo(o, num, S11, MESSAGE, ROW1, mid);
    assert a4 == S12[0] && a5 == S12[1] && a6 == S12[2] && a7 == S12[3] && b7 == S12[4] && b4 == S12[5]
        && b5 == S12[6] && b6 == S12[7] && c6 == S12[8] && c7 == S12[9] && c4 == S12[10] && c5 == S12[11]
        && d5 == S12[12] && d6 == S12[13] && d7 == S12[14] && d4 == S12[15];
    assert DiagonalsGo(o, num, mid, MESSAGE, ROW1, S12);
  }

  const ROW0: Row := [0, 1, 2, 3, 4, 5, 6, 7, 8, 9, 10, 11, 12, 13, 14, 15]
  const ROW1: Row := [14, 10, 4, 8, 9, 15, 13, 6, 1, 12, 0, 2, 11, 7, 5, 3]
  const ROW2: Row := [11, 8, 12, 0, 5, 2, 15, 13, 10, 14, 3, 6, 7, 1, 9, 4]
  const ROW3: Row := [7, 9, 3, 1, 13, 12, 11, 14, 2, 6, 5, 10, 4, 0, 15, 8]
  const ROW4: Row := [9, 0, 5, 7, 2, 4, 10, 15, 14, 1, 11, 12, 6, 8, 3, 13]
  const ROW5: Row := [2, 12, 6, 10, 0, 11, 8, 3, 4, 13, 7, 5, 15, 14, 1, 9]
  const ROW6: Row := [12, 5, 1, 15, 14, 13, 4, 10, 0, 7, 6, 3, 9, 2, 8, 11]
  const ROW7: Row := [13, 11, 7, 14, 12, 1, 3, 9, 5, 0, 15, 4, 8, 6, 2, 10]
  const ROW8: Row := [6, 15, 14, 9, 11, 3, 0, 8, 12, 2, 13, 7, 1, 4, 10, 5]
  const ROW9: Row := [10, 2, 8, 4, 7, 6, 1, 5, 15, 11, 9, 14, 3, 12, 13, 0]
  // ------------------------------------------------------------------ the answer

  /** The first `r` rounds lead from the first words to these. */
  ghost predicate Reached(g: Mixer, num: Num, r: nat, v: Words16)
    requires r <= 12
  {
    Rounds(g, Nums(num, S0), Nums(num, MESSAGE), Schedule()[..r]) == Nums(num, v)
  }

  lemma RoundsNext(g: Mixer, v: Vector, m: Vector, schedule: seq<Row>, r: nat)
    requires r < |schedule|
    ensures Rounds(g, v, m, schedule[..r + 1])
         == Diagonals(g, Columns(g, Rounds(g, v, m, schedule[..r]), m, schedule[r]), m, schedule[r])
  {
    assert schedule[..r + 1][..r] == schedule[..r];
  }

  lemma NextRound(o: Ops, g: Mixer, num: Num, r: nat, s: Row, v: Words16, w: Words16)
    requires r < 12 && Schedule()[r] == s && Mixes(o, g)
    requires Reached(g, num, r, v) && RoundGoes(o, num, v, MESSAGE, s, w)
    ensures Reached(g, num, r + 1, w)
  {
    var mid :| ColumnsGo(o, num, v, MESSAGE, s, mid) && DiagonalsGo(o, num, mid, MESSAGE, s, w);
    RoundsNext(g, Nums(num, S0), Nums(num, MESSAGE), Schedule(), r);
    ColumnsValue(o, g, num, v, MESSAGE, s, mid);
    DiagonalsValue(o, g, num, mid, MESSAGE, s, w);
  }

  lemma ScheduleIs()
    ensures Schedule() == [ROW0, ROW1, ROW2, ROW3, ROW4, ROW5, ROW6, ROW7, ROW8, ROW9, ROW0, ROW1]
  {
  }

  lemma FirstRounds(o: Ops, g: Mixer, num: Num)
    requires IsNum(num) && AreOps(o) && Mixes(o, g)
    ensures Reached(g, num, 6, S6)
  {
    ScheduleIs();
    assert Schedule()[..0] == [];
    Round0(o, num);
    NextRound(o, g, num, 0, ROW0, S0, S1);
    Round1(o, num);
    NextRound(o, g, num, 1, ROW1, S1, S2);
    Round2(o, num);
    NextRound(o, g, num, 2, ROW2, S2, S3);
    Round3(o, num);
    NextRound(o, g, num, 3, ROW3, S3, S4);
    Round4(o, num);
    NextRound(o, g, num, 4, ROW4, S4, S5);
    Round5(o, num);
    NextRound(o, g, num, 5, ROW5, S5, S6);
  }

  lemma LastRounds(o: Ops, g: Mixer, num: Num)
    requires IsNum(num) && AreOps(o) && Mixes(o, g) && Reached(g, num, 6, S6)
    ensures Reached(g, num, 12, S12)
  {
    ScheduleIs();
    Round6(o, num);
    NextRound(o, g, num, 6, ROW6, S6, S7);
    Round7(o, num);
    NextRound(o, g, num, 7, ROW7, S7, S8);
    Round8(o, num);
    NextRound(o, g, num, 8, ROW8, S8, S9);
    Round9(o, num);
    NextRound(o, g, num, 9, ROW9, S9, S10);
    Round10(o, num);
    NextRound(o, g, num, 10, ROW0, S10, S11);
    Round11(o, num);
    NextRound(o, g, num, 11, ROW1, S11, S12);
  }

  /** The initialization vector with the parameters of an unkeyed hash of 64 bytes. */
  const START: seq<bv64> := [
    0x6a09e667f2bdc948, 0xbb67ae8584caa73b, 0x3c6ef372fe94f82b, 0xa54ff53a5f1d36f1,
    0x510e527fade682d1, 0x9b05688c2b3e6c1f, 0x1f83d9abfb41bd6b, 0x5be0cd19137e2179]

  const ANSWER: seq<bv64> := [
    0xdae2479c78e31923, 0xa1c2be617f80fea5, 0x32ff193fa07f53a6, 0x0e7e4bd6bfec7ee8,
    0x043b33ac39f4cf8c, 0x611ad1ddc4b0190f, 0x39a0100ffec14ae2, 0x15d1a30dcc5d6c80]

  /** The initialization vector as machine words. */
  const VECTOR: seq<bv64> := [
    0x6a09e667f3bcc908, 0xbb67ae8584caa73b, 0x3c6ef372fe94f82b, 0xa54ff53a5f1d36f1,
    0x510e527fade682d1, 0x9b05688c2b3e6c1f, 0x1f83d9abfb41bd6b, 0x5be0cd19137e2179]

  lemma VectorValue(i: nat)
    requires i < 8
    ensures Value(VECTOR[i]) == IV64[i]
  {
    assert Value(0x6a09e667f3bcc908) == IV64[0] && Value(0xbb67ae8584caa73b) == IV64[1];
    assert Value(0x3c6ef372fe94f82b) == IV64[2] && Value(0xa54ff53a5f1d36f1) == IV64[3];
    assert Value(0x510e527fade682d1) == IV64[4] && Value(0x9b05688c2b3e6c1f) == IV64[5];
    assert Value(0x1f83d9abfb41bd6b) == IV64[6] && Value(0x5be0cd19137e2179) == IV64[7];
  }

  lemma OffsetWords() returns (t: nat, z: nat, f: nat)
    ensures t == Value(128) == 128 && z == Value(0) == 0 && f == Value(0xffffffffffffffff) == WORD64 - 1
  {
    t, z, f := Value(128), Value(0), Value(0xffffffffffffffff);
  }

  lemma OffsetBits()
    ensures S0[12] == VECTOR[4] ^ 128 && S0[13] == VECTOR[5] ^ 0 && S0[14] == VECTOR[6] ^ 0xffffffffffffffff
  {
  }

  /** The words that the byte count and the mark of the last block change. */
  lemma ChangedWords()
    ensures Value(S0[12]) == Xor(IV64[4], 128) && Value(S0[13]) == Xor(IV64[5], 0)
    ensures Value(S0[14]) == Xor(IV64[6], WORD64 - 1)
  {
    var t, z, f := OffsetWords();
    OffsetBits();
    VectorValue(4);
    VectorValue(5);
    VectorValue(6);
    XorValue(VECTOR[4], 128);
    XorValue(VECTOR[5], 0);
    XorValue(VECTOR[6], 0xffffffffffffffff);
  }

  lemma SameWords(i: nat)
    requires i < 12 || i == 15
    ensures i < 8 ==> S0[i] == START[i]
    ensures i >= 8 ==> Value(S0[i]) == IV64[i - 8]
  {
    if i >= 8 {
      assert S0[i] == VECTOR[i - 8];
      VectorValue(i - 8);
    }
  }

  lemma StartParts(iv: seq<nat>, h: seq<nat>, t: nat, v: Vector)
    requires |iv| == 8 && |h| == 8 && t < WORD64 && v == Start(iv, h, t, true)
    ensures v[12] == Xor(iv[4], t) && v[13] == Xor(iv[5], 0) && v[14] == Xor(iv[6], WORD64 - 1) && v[15] == iv[7]
    ensures v[..8] == h && v[8..12] == iv[..4]
  {
    Small(t);
  }

  /** Section 3.2: the work vector, with 128 bytes counted and the last block marked. */
  lemma StartWords(v: Vector)
    requires v == Start(IV64, Nums(Value, START), 128, true)
    ensures v[12] == Xor(IV64[4], 128) && v[13] == Xor(IV64[5], 0) && v[14] == Xor(IV64[6], WORD64 - 1)
    ensures forall i :: 0 <= i < 8 ==> v[i] == Value(START[i])
    ensures forall i :: 8 <= i < 12 || i == 15 ==> v[i] == IV64[i - 8]
  {
    StartParts(IV64, Nums(Value, START), 128, v);
    forall i | 0 <= i < 8 ensures v[i] == Value(START[i]) {
      assert v[i] == v[..8][i];
    }
    forall i | 8 <= i < 12 ensures v[i] == IV64[i - 8] {
      assert v[i] == v[8..12][i - 8];
    }
  }

  lemma StartIs()
    ensures Start(IV64, Nums(Value, START), 128, true) == Nums(Value, S0)
  {
    var v := Start(IV64, Nums(Value, START), 128, true);
    StartWords(v);
    ChangedWords();
    forall i | 0 <= i < 16 ensures v[i] == Value(S0[i]) {
      if i < 12 || i == 15 {
        SameWords(i);
      }
    }
  }

  lemma FinishAt(i: nat)
    requires i < 8
    ensures Xor(Xor(Value(START[i]), Value(S12[i])), Value(S12[i + 8])) == Value(ANSWER[i])
  {
    XorValue(START[i], S12[i]);
    XorValue(START[i] ^ S12[i], S12[i + 8]);
    AnswerWords(i);
  }

  lemma AnswerWords(i: nat)
    requires i < 8
    ensures (START[i] ^ S12[i]) ^ S12[i + 8] == ANSWER[i]
  {
  }

  /** BLAKE2b-512 of the bytes 0 to 127. */
  lemma KnownDigest()
    ensures F(Nums(Value, START), Nums(Value, MESSAGE), 128, true) == Nums(Value, ANSWER)
  {
    WorkIs();
    StartIs();
    FinishIs();
  }

  lemma FinishIs()
    ensures Finish(Nums(Value, START), Nums(Value, S12)) == Nums(Value, ANSWER)
  {
    FinishWords(Nums(Value, START), Nums(Value, S12), Nums(Value, ANSWER));
  }

  lemma FinishWords(h: seq<nat>, v: Vector, r: seq<nat>)
    requires h == Nums(Value, START) && v == Nums(Value, S12) && r == Nums(Value, ANSWER)
    ensures Finish(h, v) == r
  {
    forall i | 0 <= i < 8 ensures Finish(h, v)[i] == r[i] {
      FinishAt(i);
    }
  }

  lemma OpsExist() returns (o: Ops)
    ensures AreOps(o) && Mixes(o, Mix)
  {
    o := Ops((a: nat, b: nat) => Sum(a, b), (a: nat, b: nat) => Xor(a, b), (x: nat, n: Shift) => Rotr64(x, n));
    MixMixes(o);
  }

  lemma Work(o: Ops, g: Mixer, num: Num, v: Vector, m: Vector, w: Vector, schedule: seq<Row>)
    requires IsNum(num) && AreOps(o) && Mixes(o, g) && schedule == Schedule()
    requires v == Nums(num, S0) && m == Nums(num, MESSAGE) && w == Nums(num, S12)
    ensures Rounds(g, v, m, schedule) == w
  {
    FirstRounds(o, g, num);
    LastRounds(o, g, num);
    assert schedule[..12] == schedule;
  }

  lemma WorkIs()
    ensures Rounds(Mix, Nums(Value, S0), Nums(Value, MESSAGE), Schedule()) == Nums(Value, S12)
  {
    var o := OpsExist();
    Work(o, Mix, Value, Nums(Value, S0), Nums(Value, MESSAGE), Nums(Value, S12), Schedule());
  }
}
