/**
 The two-word BLAKE2b compression of the leaf kernel, against the compression function F of
 section 3.2 of RFC 7693 on 64-bit values.
 */
module Blake2b {
  import opened Words

  type Index = i: nat | i < 16 witness 0
  type Vector = v: seq<nat> | |v| == 16 witness seq(16, _ => 0)
  type PairVector = v: seq<U64> | |v| == 16 witness seq(16, _ => U64(0, 0))
  type Shift = n: nat | n <= 64 witness 0
  type Row = s: seq<Index> | |s| == 16 witness seq(16, _ => 0)

  /** The four places one call of G works on. */
  datatype Slot = Slot(a: Index, b: Index, c: Index, d: Index)

  const IV: seq<U64> := [
    U64(0xf3bcc908, 0x6a09e667), U64(0x84caa73b, 0xbb67ae85),
    U64(0xfe94f82b, 0x3c6ef372), U64(0x5f1d36f1, 0xa54ff53a),
    U64(0xade682d1, 0x510e527f), U64(0x2b3e6c1f, 0x9b05688c),
    U64(0xfb41bd6b, 0x1f83d9ab), U64(0x137e2179, 0x5be0cd19)]

  const SIGMA: seq<Row> := [
    [0, 1, 2, 3, 4, 5, 6, 7, 8, 9, 10, 11, 12, 13, 14, 15],
    [14, 10, 4, 8, 9, 15, 13, 6, 1, 12, 0, 2, 11, 7, 5, 3],
    [11, 8, 12, 0, 5, 2, 15, 13, 10, 14, 3, 6, 7, 1, 9, 4],
    [7, 9, 3, 1, 13, 12, 11, 14, 2, 6, 5, 10, 4, 0, 15, 8],
    [9, 0, 5, 7, 2, 4, 10, 15, 14, 1, 11, 12, 6, 8, 3, 13],
    [2, 12, 6, 10, 0, 11, 8, 3, 4, 13, 7, 5, 15, 14, 1, 9],
    [12, 5, 1, 15, 14, 13, 4, 10, 0, 7, 6, 3, 9, 2, 8, 11],
    [13, 11, 7, 14, 12, 1, 3, 9, 5, 0, 15, 4, 8, 6, 2, 10],
    [6, 15, 14, 9, 11, 3, 0, 8, 12, 2, 13, 7, 1, 4, 10, 5],
    [10, 2, 8, 4, 7, 6, 1, 5, 15, 11, 9, 14, 3, 12, 13, 0],
    [0, 1, 2, 3, 4, 5, 6, 7, 8, 9, 10, 11, 12, 13, 14, 15],
    [14, 10, 4, 8, 9, 15, 13, 6, 1, 12, 0, 2, 11, 7, 5, 3]]

  // ------------------------------------------------------------------ RFC 7693

  /** Section 2.6: the initialization vector as 64-bit words. */
  const IV64: seq<nat> := [
    0x6a09e667f3bcc908, 0xbb67ae8584caa73b, 0x3c6ef372fe94f82b, 0xa54ff53a5f1d36f1,
    0x510e527fade682d1, 0x9b05688c2b3e6c1f, 0x1f83d9abfb41bd6b, 0x5be0cd19137e2179]

  ghost function AddStep(v: Vector, a: Index, b: Index, x: nat): Vector {
    v[a := (v[a] + v[b] + x) % WORD64]
  }

  ghost function RotStep(v: Vector, d: Index, a: Index, n: Shift): Vector {
    v[d := Rotr64(Xor(v[d], v[a]), n)]
  }

  /** An addition or a rotation of section 3.1, as a function of the vector. */
  type Adder = (Vector, Index, Index, nat) -> Vector
  type Rotator = (Vector, Index, Index, Shift) -> Vector

  ghost function Steps(add: Adder, rot: Rotator, v: Vector, q: Slot, x: nat, y: nat): Vector {
    var v := rot(add(v, q.a, q.b, x), q.d, q.a, 32);
    var v := rot(add(v, q.c, q.d, 0), q.b, q.c, 24);
    var v := rot(add(v, q.a, q.b, y), q.d, q.a, 16);
    rot(add(v, q.c, q.d, 0), q.b, q.c, 63)
  }

  /** Section 3.1: the mixing function G. */
  ghost function Mix(v: Vector, q: Slot, x: nat, y: nat): Vector {
    Steps(AddStep, RotStep, v, q, x, y)
  }

  /** The rounds are written for any mixing function. */
  type Mixer = (Vector, Slot, nat, nat) -> Vector

  ghost function Columns(g: Mixer, v: Vector, m: Vector, s: Row): Vector {
    var v := g(v, Slot(0, 4, 8, 12), m[s[0]], m[s[1]]);
    var v := g(v, Slot(1, 5, 9, 13), m[s[2]], m[s[3]]);
    var v := g(v, Slot(2, 6, 10, 14), m[s[4]], m[s[5]]);
    g(v, Slot(3, 7, 11, 15), m[s[6]], m[s[7]])
  }

  ghost function Diagonals(g: Mixer, v: Vector, m: Vector, s: Row): Vector {
    var v := g(v, Slot(0, 5, 10, 15), m[s[8]], m[s[9]]);
    var v := g(v, Slot(1, 6, 11, 12), m[s[10]], m[s[11]]);
    var v := g(v, Slot(2, 7, 8, 13), m[s[12]], m[s[13]]);
    g(v, Slot(3, 4, 9, 14), m[s[14]], m[s[15]])
  }

  ghost function Rounds(g: Mixer, v: Vector, m: Vector, schedule: seq<Row>): Vector {
    if schedule == [] then v
    else
      var s := schedule[|schedule| - 1];
      Diagonals(g, Columns(g, Rounds(g, v, m, schedule[..|schedule| - 1]), m, s), m, s)
  }

  /** Round i takes row i mod 10 of the message schedule of section 2.7. */
  function Schedule(): seq<Row> {
    seq(12, i requires 0 <= i < 12 => SIGMA[i % 10])
  }

  ghost function Start(iv: seq<nat>, h: seq<nat>, t: nat, last: bool): Vector
    requires |iv| == 8 && |h| == 8
  {
    h + iv[..4] + [Xor(iv[4], t % WORD64), Xor(iv[5], t / WORD64),
                   if last then Xor(iv[6], WORD64 - 1) else iv[6], iv[7]]
  }

  ghost function Finish(h: seq<nat>, v: Vector): (r: seq<nat>)
    requires |h| == 8
    ensures |r| == 8
  {
    seq(8, i requires 0 <= i < 8 => Xor(Xor(h[i], v[i]), v[i + 8]))
  }

  /** Section 3.2: the compression function F. */
  ghost function F(h: seq<nat>, m: Vector, t: nat, last: bool): seq<nat>
    requires |h| == 8
  {
    Finish(h, Rounds(Mix, Start(IV64, h, t, last), m, Schedule()))
  }

  /** The kernel's last two rows are its first two, as `i mod 10` asks. */
  lemma SigmaIsSchedule()
    ensures SIGMA == Schedule()
  {
  }

  // ------------------------------------------------------------------ the constants

  /** `x` is the integer part of 2^64 times the fraction of the square root of `p`, whose integer part is `k`. */
  ghost predicate RootFraction(p: nat, k: nat, x: nat) {
    && x < WORD64 && k * k <= p < (k + 1) * (k + 1)
    && (k * WORD64 + x) * (k * WORD64 + x) <= p * WORD64 * WORD64 < (k * WORD64 + x + 1) * (k * WORD64 + x + 1)
  }

  /** Section 2.6: the square roots of the first eight primes. */
  lemma IvRoots()
    ensures RootFraction(2, 1, IV64[0]) && RootFraction(3, 1, IV64[1])
    ensures RootFraction(5, 2, IV64[2]) && RootFraction(7, 2, IV64[3])
    ensures RootFraction(11, 3, IV64[4]) && RootFraction(13, 3, IV64[5])
    ensures RootFraction(17, 4, IV64[6]) && RootFraction(19, 4, IV64[7])
  {
  }

  /** Section 2.7: every row of the schedule takes every word once. */
  lemma RowsPermute(r: nat, i: nat, j: nat)
    requires r < 10 && i < j < 16
    ensures SIGMA[r][i] != SIGMA[r][j]
  {
    if r < 5 {
      FirstRowsPermute(r, i, j);
    } else {
      LastRowsPermute(r, i, j);
    }
  }

  lemma FirstRowsPermute(r: nat, i: nat, j: nat)
    requires r < 5 && i < j < 16
    ensures SIGMA[r][i] != SIGMA[r][j]
  {
  }

  lemma LastRowsPermute(r: nat, i: nat, j: nat)
    requires 5 <= r < 10 && i < j < 16
    ensures SIGMA[r][i] != SIGMA[r][j]
  {
  }

  /** No two of the ten rows take a word at the same place. */
  lemma RowsDiffer(r: nat, r': nat)
    requires r < r' < 10
    ensures forall i :: 0 <= i < 16 ==> SIGMA[r][i] != SIGMA[r'][i]
  {
  }

  // ------------------------------------------------------------------ pairs for values

  ghost function Joined(s: seq<U64>): (r: seq<nat>)
    ensures |r| == |s|
  {
    seq(|s|, i requires 0 <= i < |s| => Join(s[i]))
  }

  lemma JoinedUpdate(s: seq<U64>, i: nat, w: U64)
    requires i < |s|
    ensures Joined(s[i := w]) == Joined(s)[i := Join(w)]
  {
  }

  lemma ModSum(s: nat, x: nat)
    ensures (s % WORD64 + x) % WORD64 == (s + x) % WORD64
  {
  }

  lemma SumMod(ab: U64, x: U64, sum: nat)
    requires Join(ab) == sum % WORD64
    ensures Join(Add(ab, x)) == (sum + Join(x)) % WORD64
  {
    AddIsSum(ab, x);
    ModSum(sum, Join(x));
  }

  lemma SumOfThree(a: U64, b: U64, x: U64)
    ensures Join(Add(Add(a, b), x)) == (Join(a) + Join(b) + Join(x)) % WORD64
  {
    AddIsSum(a, b);
    SumMod(Add(a, b), x, Join(a) + Join(b));
  }

  lemma RotatedXor(a: U64, b: U64, n: nat)
    requires 1 <= n <= 63
    ensures Join(Rotr(XorPair(a, b), n)) == Rotr64(Xor(Join(a), Join(b)), n)
  {
    XorIsXor(a, b);
    RotrIsRotation(XorPair(a, b), n);
  }

  lemma AddStepJoined(v: PairVector, a: Index, b: Index, x: U64)
    ensures Joined(v[a := Add(Add(v[a], v[b]), x)]) == AddStep(Joined(v), a, b, Join(x))
  {
    SumOfThree(v[a], v[b], x);
    JoinedUpdate(v, a, Add(Add(v[a], v[b]), x));
  }

  lemma PlainAddJoined(v: PairVector, c: Index, d: Index)
    ensures Joined(v[c := Add(v[c], v[d])]) == AddStep(Joined(v), c, d, 0)
  {
    AddIsSum(v[c], v[d]);
    JoinedUpdate(v, c, Add(v[c], v[d]));
  }

  lemma RotStepJoined(v: PairVector, d: Index, a: Index, n: nat)
    requires 1 <= n <= 63
    ensures Joined(v[d := Rotr(XorPair(v[d], v[a]), n)]) == RotStep(Joined(v), d, a, n)
  {
    RotatedXor(v[d], v[a], n);
    JoinedUpdate(v, d, Rotr(XorPair(v[d], v[a]), n));
  }

  // ------------------------------------------------------------------ the kernel

  /** The parameters are the functions of RFC 7693; spelled so that only a mention of those unfolds them. */
  ghost predicate IsAdd(add: Adder) {
    forall v: Vector, a: Index, b: Index, x: nat {:trigger AddStep(v, a, b, x)} ::
      add(v, a, b, x) == AddStep(v, a, b, x)
  }

  ghost predicate IsRot(rot: Rotator) {
    forall v: Vector, d: Index, a: Index, n: Shift {:trigger RotStep(v, d, a, n)} ::
      rot(v, d, a, n) == RotStep(v, d, a, n)
  }

  ghost predicate IsMix(g: Mixer, add: Adder, rot: Rotator) {
    forall v: Vector, q: Slot, x: nat, y: nat {:trigger Steps(add, rot, v, q, x, y)} ::
      g(v, q, x, y) == Steps(add, rot, v, q, x, y)
  }

  ghost predicate Rfc(g: Mixer, add: Adder, rot: Rotator) {
    IsAdd(add) && IsRot(rot) && IsMix(g, add, rot)
  }

  lemma MixIsRfc()
    ensures Rfc(Mix, AddStep, RotStep)
  {
  }

  method AddPair(ghost add: Adder, v: array<U64>, a: Index, b: Index, x: U64)
    requires v.Length == 16 && IsAdd(add)
    modifies v
    ensures Joined(v[..]) == add(Joined(old(v[..])), a, b, Join(x))
  {
    AddStepJoined(v[..], a, b, x);
    v[a] := Add(Add(v[a], v[b]), x);
    assert v[..] == old(v[..])[a := v[a]];
  }

  method PlainAddPair(ghost add: Adder, v: array<U64>, c: Index, d: Index)
    requires v.Length == 16 && IsAdd(add)
    modifies v
    ensures Joined(v[..]) == add(Joined(old(v[..])), c, d, 0)
  {
    PlainAddJoined(v[..], c, d);
    v[c] := Add(v[c], v[d]);
    assert v[..] == old(v[..])[c := v[c]];
  }

  method RotPair(ghost rot: Rotator, v: array<U64>, d: Index, a: Index, n: Shift)
    requires v.Length == 16 && 1 <= n <= 63 && IsRot(rot)
    modifies v
    ensures Joined(v[..]) == rot(Joined(old(v[..])), d, a, n)
  {
    RotStepJoined(v[..], d, a, n);
    v[d] := Rotr(XorPair(v[d], v[a]), n);
    assert v[..] == old(v[..])[d := v[d]];
  }

  /** The eight assignments of the `g!` macro. */
  method StepPairs(ghost add: Adder, ghost rot: Rotator, v: array<U64>, q: Slot, x: U64, y: U64)
    requires v.Length == 16 && IsAdd(add) && IsRot(rot)
    modifies v
    ensures Joined(v[..]) == Steps(add, rot, Joined(old(v[..])), q, Join(x), Join(y))
  {
    AddPair(add, v, q.a, q.b, x);
    RotPair(rot, v, q.d, q.a, 32);
    PlainAddPair(add, v, q.c, q.d);
    RotPair(rot, v, q.b, q.c, 24);
    AddPair(add, v, q.a, q.b, y);
    RotPair(rot, v, q.d, q.a, 16);
    PlainAddPair(add, v, q.c, q.d);
    RotPair(rot, v, q.b, q.c, 63);
  }

  method MixPairs(ghost g: Mixer, ghost add: Adder, ghost rot: Rotator, v: array<U64>, q: Slot, x: U64, y: U64)
    requires v.Length == 16 && Rfc(g, add, rot)
    modifies v
    ensures Joined(v[..]) == g(Joined(old(v[..])), q, Join(x), Join(y))
  {
    StepPairs(add, rot, v, q, x, y);
  }

  method ColumnPairs(ghost g: Mixer, ghost add: Adder, ghost rot: Rotator, v: array<U64>, block: PairVector, s: Row)
    requires v.Length == 16 && Rfc(g, add, rot)
    modifies v
    ensures Joined(v[..]) == Columns(g, Joined(old(v[..])), Joined(block), s)
  {
    MixPairs(g, add, rot, v, Slot(0, 4, 8, 12), block[s[0]], block[s[1]]);
    MixPairs(g, add, rot, v, Slot(1, 5, 9, 13), block[s[2]], block[s[3]]);
    MixPairs(g, add, rot, v, Slot(2, 6, 10, 14), block[s[4]], block[s[5]]);
    MixPairs(g, add, rot, v, Slot(3, 7, 11, 15), block[s[6]], block[s[7]]);
  }

  method DiagonalPairs(ghost g: Mixer, ghost add: Adder, ghost rot: Rotator, v: array<U64>, block: PairVector, s: Row)
    requires v.Length == 16 && Rfc(g, add, rot)
    modifies v
    ensures Joined(v[..]) == Diagonals(g, Joined(old(v[..])), Joined(block), s)
  {
    MixPairs(g, add, rot, v, Slot(0, 5, 10, 15), block[s[8]], block[s[9]]);
    MixPairs(g, add, rot, v, Slot(1, 6, 11, 12), block[s[10]], block[s[11]]);
    MixPairs(g, add, rot, v, Slot(2, 7, 8, 13), block[s[12]], block[s[13]]);
    MixPairs(g, add, rot, v, Slot(3, 4, 9, 14), block[s[14]], block[s[15]]);
  }

  /** All rounds of a schedule. */
  method RoundPairs(ghost g: Mixer, ghost add: Adder, ghost rot: Rotator, v: array<U64>, block: PairVector,
      sigma: seq<Row>)
    requires v.Length == 16 && Rfc(g, add, rot)
    modifies v
    ensures Joined(v[..]) == Rounds(g, Joined(old(v[..])), Joined(block), sigma)
  {
    ghost var start := Joined(v[..]);
    for r := 0 to |sigma|
      invariant Joined(v[..]) == Rounds(g, start, Joined(block), sigma[..r])
    {
      ColumnPairs(g, add, rot, v, block, sigma[r]);
      DiagonalPairs(g, add, rot, v, block, sigma[r]);
      assert sigma[..r + 1][..r] == sigma[..r];
    }
    assert sigma[..|sigma|] == sigma;
  }

  function StartPairs(iv: seq<U64>, h: seq<U64>, t: U64, f: Word): PairVector
    requires |iv| == 8 && |h| == 8
  {
    h + iv[..4] + [XorPair(iv[4], t), iv[5], XorPair(iv[6], U64(f, f)), iv[7]]
  }

  lemma IvJoined()
    ensures Joined(IV) == IV64
  {
  }

  lemma {:induction false} XorNothing(a: nat)
    ensures Xor(a, 0) == a
  {
    if a > 0 {
      XorNothing(a / 2);
    }
  }

  lemma FlagJoined(w: U64, f: Word)
    requires f == 0 || f == BASE - 1
    ensures Join(XorPair(w, U64(f, f))) == if f != 0 then Xor(Join(w), WORD64 - 1) else Join(w)
  {
    XorIsXor(w, U64(f, f));
    XorNothing(Join(w));
  }

  /** The counter fits one word, so the high half of the offset is zero. */
  lemma StartJoined(iv: seq<U64>, h: seq<U64>, t: U64, f: Word)
    requires |iv| == 8 && |h| == 8 && (f == 0 || f == BASE - 1)
    ensures Joined(StartPairs(iv, h, t, f)) == Start(Joined(iv), Joined(h), Join(t), f != 0)
  {
    var tail := [XorPair(iv[4], t), iv[5], XorPair(iv[6], U64(f, f)), iv[7]];
    JoinedConcat(h + iv[..4], tail);
    JoinedConcat(h, iv[..4]);
    assert Joined(iv[..4]) == Joined(iv)[..4];
    assert Joined(tail) == [Join(tail[0]), Join(tail[1]), Join(tail[2]), Join(tail[3])];
    CounterJoined(iv[4], iv[5], t);
    FlagJoined(iv[6], f);
  }

  lemma JoinedConcat(a: seq<U64>, b: seq<U64>)
    ensures Joined(a + b) == Joined(a) + Joined(b)
  {
  }

  lemma CounterJoined(w: U64, w': U64, t: U64)
    ensures Join(XorPair(w, t)) == Xor(Join(w), Join(t) % WORD64) && Join(w') == Xor(Join(w'), Join(t) / WORD64)
  {
    JoinBound(t);
    Small(Join(t));
    XorIsXor(w, t);
    XorNothing(Join(w'));
  }

  lemma Small(x: nat)
    requires x < WORD64
    ensures x % WORD64 == x && x / WORD64 == 0
  {
  }

  /** The last loop: both halves of the work vector into the state. */
  method FinishPairs(h: array<U64>, v: array<U64>)
    requires h.Length == 8 && v.Length == 16 && h != v
    modifies h
    ensures Joined(h[..]) == Finish(Joined(old(h[..])), Joined(v[..]))
  {
    for i := 0 to 8
      invariant forall j :: 0 <= j < i ==> Join(h[j]) == Xor(Xor(Join(old(h[j])), Join(v[j])), Join(v[j + 8]))
      invariant forall j :: i <= j < 8 ==> h[j] == old(h[j])
    {
      XorIsXor(h[i], v[i]);
      XorIsXor(XorPair(h[i], v[i]), v[i + 8]);
      h[i] := XorPair(XorPair(h[i], v[i]), v[i + 8]);
    }
  }

  method CompressWith(ghost g: Mixer, ghost add: Adder, ghost rot: Rotator, iv: seq<U64>, sigma: seq<Row>,
      h: array<U64>, block: PairVector, t: U64, f: Word)
    requires Rfc(g, add, rot) && |iv| == 8 && h.Length == 8 && (f == 0 || f == BASE - 1)
    modifies h
    ensures Joined(h[..])
         == Finish(Joined(old(h[..])), Rounds(g, Start(Joined(iv), Joined(old(h[..])), Join(t), f != 0),
             Joined(block), sigma))
  {
    StartJoined(iv, h[..], t, f);
    var init := StartPairs(iv, h[..], t, f);
    var v := new U64[16](i requires 0 <= i < 16 => init[i]);
    assert v[..] == init;
    RoundPairs(g, add, rot, v, block, sigma);
    FinishPairs(h, v);
  }

  /** The kernel's `compress` is F, for every state, block, counter below 2^64 and flag. */
  method Compress(h: array<U64>, block: PairVector, t: U64, f: Word)
    requires h.Length == 8 && (f == 0 || f == BASE - 1)
    modifies h
    ensures Joined(h[..]) == F(Joined(old(h[..])), Joined(block), Join(t), f != 0)
  {
    IvJoined();
    SigmaIsSchedule();
    MixIsRfc();
    CompressWith(Mix, AddStep, RotStep, IV, SIGMA, h, block, t, f);
  }
}
