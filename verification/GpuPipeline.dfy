/**
 The whole GPU-shaped pipeline for (96, 5) against the solver: packed rows stand for
 solver rows, a kernel round does to them what a solver round does, and after five rounds
 the rows with a zero hash are the Equihash solutions.
 */
module GpuPipeline {
  import opened Arith
  import opened Bags
  import opened Bits
  import opened Buckets
  import opened Equihash
  import opened Solver
  import opened Search
  import opened ShaderRef

  const LEAF_BYTES := 12
  const ROUNDS := 5
  const CBITS := 16

  // ------------------------------------------------------------------ packed rows

  /** Four bytes as a little-endian word. */
  function Word(b0: byte, b1: byte, b2: byte, b3: byte): bv32 {
    (b0 as bv32) | ((b1 as bv32) << 8) | ((b2 as bv32) << 16) | ((b3 as bv32) << 24)
  }

  /** Byte `i` of a hash of at most 12 bytes; dead trailing bytes are zero. */
  function ByteOf(h: seq<byte>, i: nat): byte {
    if i < |h| then h[i] else 0
  }

  function PackHash(h: seq<byte>): Hash {
    Hash(Word(ByteOf(h, 0), ByteOf(h, 1), ByteOf(h, 2), ByteOf(h, 3)),
         Word(ByteOf(h, 4), ByteOf(h, 5), ByteOf(h, 6), ByteOf(h, 7)),
         Word(ByteOf(h, 8), ByteOf(h, 9), ByteOf(h, 10), ByteOf(h, 11)))
  }

  /** A solver row before round `r`: `12 - 2r` hash bytes and `2^r` indices. */
  ghost predicate Shaped(row: Row, r: nat) {
    r <= ROUNDS && |row.hash| == LEAF_BYTES - 2 * r && |row.indices| == Pow2(r)
  }

  lemma PowersOfTwo()
    ensures Pow2(0) == 1 && Pow2(1) == 2 && Pow2(2) == 4 && Pow2(3) == 8 && Pow2(4) == 16 && Pow2(5) == 32
  {
    assert Pow2(2) == 4;
    assert Pow2(4) == 16;
  }

  lemma ShapedFits(r: nat)
    ensures r <= ROUNDS ==> Pow2(r) <= INDICES_MAX
    ensures r < ROUNDS ==> 2 * Pow2(r) <= INDICES_MAX
  {
    PowersOfTwo();
    if r < ROUNDS {
      Pow2Monotone(r, 4);
    }
  }

  /** The packed form of a solver row. */
  function PackRow(hash: seq<byte>, indices: seq<nat>): (row: RowFixed)
    requires |indices| <= INDICES_MAX
    ensures row.indices[..|indices|] == indices && forall i :: |indices| <= i < 32 ==> row.indices[i] == 0
  {
    RawRow(PackHash(hash), indices + Zeros(INDICES_MAX - |indices|))
  }

  ghost function Embed(row: Row, r: nat): RowFixed
    requires Shaped(row, r)
  {
    ShapedFits(r);
    PackRow(row.hash, row.indices)
  }

  lemma WordInjective(a0: byte, a1: byte, a2: byte, a3: byte, b0: byte, b1: byte, b2: byte, b3: byte)
    ensures Word(a0, a1, a2, a3) == Word(b0, b1, b2, b3) <==> a0 == b0 && a1 == b1 && a2 == b2 && a3 == b3
  {
  }

  lemma PackInjective(a: seq<byte>, b: seq<byte>)
    requires |a| == |b| <= LEAF_BYTES && PackHash(a) == PackHash(b)
    ensures a == b
  {
    WordInjective(ByteOf(a, 0), ByteOf(a, 1), ByteOf(a, 2), ByteOf(a, 3),
                  ByteOf(b, 0), ByteOf(b, 1), ByteOf(b, 2), ByteOf(b, 3));
    WordInjective(ByteOf(a, 4), ByteOf(a, 5), ByteOf(a, 6), ByteOf(a, 7),
                  ByteOf(b, 4), ByteOf(b, 5), ByteOf(b, 6), ByteOf(b, 7));
    WordInjective(ByteOf(a, 8), ByteOf(a, 9), ByteOf(a, 10), ByteOf(a, 11),
                  ByteOf(b, 8), ByteOf(b, 9), ByteOf(b, 10), ByteOf(b, 11));
    assert forall i :: 0 <= i < 12 ==> ByteOf(a, i) == ByteOf(b, i);
    forall i | 0 <= i < |a| ensures a[i] == b[i] {
      assert ByteOf(a, i) == ByteOf(b, i);
    }
  }

  lemma EmbedInjective(a: Row, b: Row, r: nat)
    requires Shaped(a, r) && Shaped(b, r) && Embed(a, r) == Embed(b, r)
    ensures a == b
  {
    PackInjective(a.hash, b.hash);
    assert a.indices == Embed(a, r).indices[..Pow2(r)];
    assert b.indices == Embed(b, r).indices[..Pow2(r)];
  }

  // ------------------------------------------------------------------ one pair

  lemma WordXor(a0: byte, a1: byte, a2: byte, a3: byte, b0: byte, b1: byte, b2: byte, b3: byte)
    ensures Word(a0, a1, a2, a3) ^ Word(b0, b1, b2, b3) == Word(a0 ^ b0, a1 ^ b1, a2 ^ b2, a3 ^ b3)
  {
  }

  lemma WordShift(a0: byte, a1: byte, a2: byte, a3: byte, b0: byte, b1: byte, b2: byte, b3: byte)
    ensures (Word(a0, a1, a2, a3) >> 16) | (Word(b0, b1, b2, b3) << 16) == Word(a2, a3, b0, b1)
    ensures Word(a0, a1, a2, a3) >> 16 == Word(a2, a3, 0, 0)
  {
  }

  function TwoBytes(b0: byte, b1: byte): bv16 {
    ((b0 as bv16) << 8) | (b1 as bv16)
  }

  lemma BucketOfWord(b0: byte, b1: byte, b2: byte, b3: byte)
    ensures BucketId(Word(b0, b1, b2, b3)) == TwoBytes(b0, b1)
  {
  }

  lemma BucketBytes(a0: byte, a1: byte, b0: byte, b1: byte)
    ensures TwoBytes(a0, a1) == TwoBytes(b0, b1) <==> a0 == b0 && a1 == b1
  {
  }

  lemma PackedXor(a: seq<byte>, b: seq<byte>)
    requires |a| == |b| <= LEAF_BYTES
    ensures var p, q, x := PackHash(a), PackHash(b), PackHash(Xor(a, b));
            p.w0 ^ q.w0 == x.w0 && p.w1 ^ q.w1 == x.w1 && p.w2 ^ q.w2 == x.w2
  {
    forall i: nat ensures ByteOf(a, i) ^ ByteOf(b, i) == ByteOf(Xor(a, b), i) {
      XorZero(0);
    }
    WordXor(ByteOf(a, 0), ByteOf(a, 1), ByteOf(a, 2), ByteOf(a, 3),
            ByteOf(b, 0), ByteOf(b, 1), ByteOf(b, 2), ByteOf(b, 3));
    WordXor(ByteOf(a, 4), ByteOf(a, 5), ByteOf(a, 6), ByteOf(a, 7),
            ByteOf(b, 4), ByteOf(b, 5), ByteOf(b, 6), ByteOf(b, 7));
    WordXor(ByteOf(a, 8), ByteOf(a, 9), ByteOf(a, 10), ByteOf(a, 11),
            ByteOf(b, 8), ByteOf(b, 9), ByteOf(b, 10), ByteOf(b, 11));
  }

  function ShiftWords(h: Hash): Hash {
    Hash((h.w0 >> 16) | (h.w1 << 16), (h.w1 >> 16) | (h.w2 << 16), h.w2 >> 16)
  }

  lemma ShiftBytes(b0: byte, b1: byte, b2: byte, b3: byte, b4: byte, b5: byte,
                   b6: byte, b7: byte, b8: byte, b9: byte, b10: byte, b11: byte)
    ensures ShiftWords(Hash(Word(b0, b1, b2, b3), Word(b4, b5, b6, b7), Word(b8, b9, b10, b11)))
         == Hash(Word(b2, b3, b4, b5), Word(b6, b7, b8, b9), Word(b10, b11, 0, 0))
  {
    WordShift(b0, b1, b2, b3, b4, b5, b6, b7);
    WordShift(b4, b5, b6, b7, b8, b9, b10, b11);
    WordShift(b8, b9, b10, b11, 0, 0, 0, 0);
  }

  lemma BytesMoved(x: seq<byte>, i: nat)
    requires 2 <= |x| <= LEAF_BYTES
    ensures ByteOf(x[2..], i) == ByteOf(x, i + 2) && (i >= 10 ==> ByteOf(x[2..], i) == 0)
  {
  }

  lemma PackedShift(x: seq<byte>)
    requires 2 <= |x| <= LEAF_BYTES
    ensures PackHash(x[2..]) == ShiftWords(PackHash(x))
  {
    BytesMoved(x, 0);
    BytesMoved(x, 1);
    BytesMoved(x, 2);
    BytesMoved(x, 3);
    BytesMoved(x, 4);
    BytesMoved(x, 5);
    BytesMoved(x, 6);
    BytesMoved(x, 7);
    BytesMoved(x, 8);
    BytesMoved(x, 9);
    BytesMoved(x, 10);
    BytesMoved(x, 11);
    ShiftBytes(ByteOf(x, 0), ByteOf(x, 1), ByteOf(x, 2), ByteOf(x, 3), ByteOf(x, 4), ByteOf(x, 5),
               ByteOf(x, 6), ByteOf(x, 7), ByteOf(x, 8), ByteOf(x, 9), ByteOf(x, 10), ByteOf(x, 11));
  }

  /** Word-wise XOR and shift is byte-wise XOR with two bytes cut off and zeros shifted in. */
  lemma XorAndTrimBytes(a: seq<byte>, b: seq<byte>)
    requires 2 <= |a| == |b| <= LEAF_BYTES
    ensures XorAndTrim(PackHash(a), PackHash(b)) == PackHash(Xor(a, b)[2..])
  {
    PackedXor(a, b);
    PackedShift(Xor(a, b));
  }

  lemma PackedBucket(a: seq<byte>)
    requires 2 <= |a| <= LEAF_BYTES
    ensures BucketId(PackHash(a).w0) == TwoBytes(a[0], a[1])
  {
    BucketOfWord(ByteOf(a, 0), ByteOf(a, 1), ByteOf(a, 2), ByteOf(a, 3));
  }

  lemma TwoBytesAgree(a: seq<byte>, b: seq<byte>)
    requires 2 <= |a| && 2 <= |b|
    ensures TwoBytes(a[0], a[1]) == TwoBytes(b[0], b[1]) <==> AgreeBits(a, b, CBITS)
  {
    BucketBytes(a[0], a[1], b[0], b[1]);
    WholeBytesAgree(a, b, 2);
    assert a[..2] == [a[0], a[1]] && b[..2] == [b[0], b[1]];
  }

  /** Two packed rows share a bucket exactly when the first 16 bits of the hashes agree. */
  lemma SameBucket(a: seq<byte>, b: seq<byte>)
    requires 2 <= |a| <= LEAF_BYTES && 2 <= |b| <= LEAF_BYTES
    ensures ExtractBucket(PackHash(a)) == ExtractBucket(PackHash(b)) <==> AgreeBits(a, b, CBITS)
  {
    assert ExtractBucket(PackHash(a)) == ExtractBucket(PackHash(b))
      <==> BucketId(PackHash(a).w0) == BucketId(PackHash(b).w0) by {
      BucketInjective(PackHash(a), PackHash(b));
    }
    PackedBucket(a);
    PackedBucket(b);
    TwoBytesAgree(a, b);
  }

  lemma CombineShaped(a: Row, b: Row, r: nat)
    requires r < ROUNDS && Shaped(a, r) && Shaped(b, r)
    ensures Shaped(Combine(a, b, CBITS), r + 1)
  {
  }

  lemma EmbedCombine(a: Row, b: Row, r: nat)
    requires r < ROUNDS && Shaped(a, r) && Shaped(b, r)
    ensures Shaped(Combine(a, b, CBITS), r + 1) && 2 * Pow2(r) <= INDICES_MAX
    ensures CombineFixed(Embed(a, r), Embed(b, r), Pow2(r)) == Embed(Combine(a, b, CBITS), r + 1)
  {
    CombineShaped(a, b, r);
    ShapedFits(r);
    XorAndTrimBytes(a.hash, b.hash);
    assert Embed(a, r).indices[..Pow2(r)] == a.indices && Embed(b, r).indices[..Pow2(r)] == b.indices;
  }

  /** A pair of packed rows emits the packed form of what the pair of solver rows emits. */
  lemma EmbedEmit(a: Row, b: Row, r: nat)
    requires r < ROUNDS && Shaped(a, r) && Shaped(b, r)
    ensures 2 * Pow2(r) <= INDICES_MAX
    ensures Collides(a, b, CBITS) ==> Shaped(Combine(a, b, CBITS), r + 1)
    ensures EmitFixed(Embed(a, r), Embed(b, r), Pow2(r))
         == if Collides(a, b, CBITS) then multiset{Embed(Combine(a, b, CBITS), r + 1)} else multiset{}
  {
    EmbedCombine(a, b, r);
    SameBucket(a.hash, b.hash);
    assert Embed(a, r).indices[..Pow2(r)] == a.indices && Embed(b, r).indices[..Pow2(r)] == b.indices;
  }

  // ------------------------------------------------------------------ any round

  ghost predicate AllShaped(rows: seq<Row>, r: nat) {
    forall i :: 0 <= i < |rows| ==> Shaped(rows[i], r)
  }

  ghost function EmbedAll(rows: seq<Row>, r: nat): (packed: seq<RowFixed>)
    requires AllShaped(rows, r)
    ensures |packed| == |rows| && forall i :: 0 <= i < |rows| ==> packed[i] == Embed(rows[i], r)
  {
    if rows == [] then [] else
      assert forall i :: 0 <= i < |rows| - 1 ==> rows[1..][i] == rows[i + 1];
      [Embed(rows[0], r)] + EmbedAll(rows[1..], r)
  }

  /** The kernel's emission on packed rows against the solver's emission, result by result. */
  lemma EmissionAgrees(a: Row, b: Row, r: nat, z: Row)
    requires r < ROUNDS && Shaped(a, r) && Shaped(b, r) && Shaped(z, r + 1)
    ensures 2 * Pow2(r) <= INDICES_MAX
    ensures EmitFixed(Embed(a, r), Embed(b, r), Pow2(r))[Embed(z, r + 1)] == Emit(a, b, CBITS)[z]
  {
    EmbedEmit(a, b, r);
    if Collides(a, b, CBITS) && Embed(Combine(a, b, CBITS), r + 1) == Embed(z, r + 1) {
      EmbedInjective(Combine(a, b, CBITS), z, r + 1);
    }
  }

  /**
   The pairs of packed rows give each result of a solver round as often in packed form.
   `RoundKernel` says when a kernel round emits all of these pairs.
   */
  lemma {:induction false} RoundsAgree(rows: seq<Row>, r: nat, z: Row)
    requires r < ROUNDS && AllShaped(rows, r) && Shaped(z, r + 1)
    ensures 2 * Pow2(r) <= INDICES_MAX
    ensures PairBag(EmbedAll(rows, r), EmissionFixed(Pow2(r)))[Embed(z, r + 1)] == PairBag(rows, Emission(CBITS))[z]
  {
    ShapedFits(r);
    if rows != [] {
      assert AllShaped(rows[1..], r);
      assert EmbedAll(rows, r)[1..] == EmbedAll(rows[1..], r);
      RowAgrees(rows[0], rows[1..], r, z);
      RoundsAgree(rows[1..], r, z);
    }
  }

  lemma {:induction false} RowAgrees(x: Row, t: seq<Row>, r: nat, z: Row)
    requires r < ROUNDS && Shaped(x, r) && AllShaped(t, r) && Shaped(z, r + 1)
    requires 2 * Pow2(r) <= INDICES_MAX
    ensures PairsWith(Embed(x, r), EmbedAll(t, r), EmissionFixed(Pow2(r)))[Embed(z, r + 1)]
         == PairsWith(x, t, Emission(CBITS))[z]
  {
    if t != [] {
      assert AllShaped(t[1..], r);
      assert EmbedAll(t, r)[1..] == EmbedAll(t[1..], r);
      EmissionAgrees(x, t[0], r, z);
      RowAgrees(x, t[1..], r, z);
    }
  }

  /** `y` is the packed form of a row of shape `r`. */
  ghost predicate IsPackedRow(y: RowFixed, r: nat) {
    exists z :: Shaped(z, r) && Embed(z, r) == y
  }

  /** Everything the kernel emits from packed rows is a packed row of the next shape. */
  lemma EmitsPacked(rows: seq<Row>, r: nat, y: RowFixed)
    requires r < ROUNDS && AllShaped(rows, r)
    requires 2 * Pow2(r) <= INDICES_MAX
    requires !IsPackedRow(y, r + 1)
    ensures PairBag(EmbedAll(rows, r), EmissionFixed(Pow2(r)))[y] == 0
  {
    var packed := EmbedAll(rows, r);
    forall i, j | 0 <= i < |packed| && 0 <= j < |packed|
      ensures EmissionFixed(Pow2(r))(packed[i], packed[j])[y] == 0
    {
      EmbedEmit(rows[i], rows[j], r);
    }
    PairBagNone(packed, EmissionFixed(Pow2(r)), y);
  }

  // ------------------------------------------------------------------ trees in packed form

  /** The packed row of a tree of height `r`. */
  ghost predicate IsFixedTree(leaves: Leaves, r: nat, y: RowFixed) {
    && r <= ROUNDS && Pow2(r) <= INDICES_MAX
    && CodeTree(leaves, CBITS, y.indices[..Pow2(r)], r)
    && y == FixedTree(leaves, r, y.indices[..Pow2(r)])
  }

  ghost function FixedTree(leaves: Leaves, r: nat, idx: seq<nat>): RowFixed
    requires r <= ROUNDS && |idx| == Pow2(r)
  {
    FixedShape(leaves, r, idx);
    Embed(TreeRow(leaves, LEAF_BYTES, CBITS, r, idx), r)
  }

  lemma FixedShape(leaves: Leaves, r: nat, idx: seq<nat>)
    requires r <= ROUNDS && |idx| == Pow2(r)
    ensures Shaped(TreeRow(leaves, LEAF_BYTES, CBITS, r, idx), r)
  {
  }

  lemma FixedTreeIs(leaves: Leaves, r: nat, idx: seq<nat>)
    requires r <= ROUNDS && CodeTree(leaves, CBITS, idx, r)
    ensures Pow2(r) <= INDICES_MAX
    ensures FixedTree(leaves, r, idx).indices[..Pow2(r)] == idx
    ensures IsFixedTree(leaves, r, FixedTree(leaves, r, idx))
  {
    ShapedFits(r);
    assert FixedTree(leaves, r, idx).indices[..Pow2(r)] == idx;
  }

  /** The rows are trees of height `r`, each at most once. */
  ghost predicate OnlyTrees(leaves: Leaves, r: nat, rows: multiset<RowFixed>) {
    forall y :: rows[y] <= if IsFixedTree(leaves, r, y) then 1 else 0
  }

  /** The rows are all trees of height `r`, each exactly once. */
  ghost predicate AllTrees(leaves: Leaves, r: nat, rows: multiset<RowFixed>) {
    forall y :: rows[y] == if IsFixedTree(leaves, r, y) then 1 else 0
  }

  /** The same for the packed forms: a tree's row comes from the rows of its halves only. */
  lemma EmbedCount(leaves: Leaves, r: nat, a: Row, b: Row, z: Row, u: Row, v: Row)
    requires r < ROUNDS && Shaped(a, r) && Shaped(b, r) && Shaped(u, r) && Shaped(v, r) && Shaped(z, r + 1)
    requires Emit(a, b, CBITS)[z] == if IsPair(a, b, u, v) then 1 else 0
    ensures 2 * Pow2(r) <= INDICES_MAX
    ensures EmitFixed(Embed(a, r), Embed(b, r), Pow2(r))[Embed(z, r + 1)]
         == if IsPair(Embed(a, r), Embed(b, r), Embed(u, r), Embed(v, r)) then 1 else 0
  {
    EmissionAgrees(a, b, r, z);
    SamePair(a, b, u, v, r);
  }

  /** A packed tree of height `r + 1` comes from the packed rows of its halves only. */
  lemma FixedCount(leaves: Leaves, r: nat, a: RowFixed, b: RowFixed, y: RowFixed, left: seq<nat>, right: seq<nat>)
    requires r < ROUNDS && IsFixedTree(leaves, r, a) && IsFixedTree(leaves, r, b)
    requires IsFixedTree(leaves, r + 1, y)
    requires |left| == |right| == Pow2(r) && left + right == y.indices[..Pow2(r + 1)]
    ensures 2 * Pow2(r) <= INDICES_MAX
    ensures EmitFixed(a, b, Pow2(r))[y]
         == if IsPair(a, b, FixedTree(leaves, r, left), FixedTree(leaves, r, right)) then 1 else 0
  {
    var ia, ib := a.indices[..Pow2(r)], b.indices[..Pow2(r)];
    SolverCount(leaves, r, ia, ib, left, right);
    FixedRows(leaves, r, ia, ib, left, right);
    EmbedCount(leaves, r, SolverRow(leaves, r, ia), SolverRow(leaves, r, ib), SolverRow(leaves, r + 1, left + right),
               SolverRow(leaves, r, left), SolverRow(leaves, r, right));
  }

  lemma SolverCount(leaves: Leaves, r: nat, ia: seq<nat>, ib: seq<nat>, left: seq<nat>, right: seq<nat>)
    requires r < ROUNDS && CodeTree(leaves, CBITS, ia, r) && CodeTree(leaves, CBITS, ib, r)
    requires |left| == |right| == Pow2(r) && CodeTree(leaves, CBITS, left + right, r + 1)
    ensures Emit(SolverRow(leaves, r, ia), SolverRow(leaves, r, ib), CBITS)[SolverRow(leaves, r + 1, left + right)]
         == if IsPair(SolverRow(leaves, r, ia), SolverRow(leaves, r, ib), SolverRow(leaves, r, left),
             SolverRow(leaves, r, right))
            then 1 else 0
  {
    CodeTreeHalves(leaves, CBITS, left, right, r);
    SolverRowIs(leaves, r, ia);
    SolverRowIs(leaves, r, ib);
    SolverRowIs(leaves, r, left);
    SolverRowIs(leaves, r, right);
    SolverRowIs(leaves, r + 1, left + right);
    TwelveBytes(r);
    EmitCount(leaves, LEAF_BYTES, CBITS, r, SolverRow(leaves, r, ia), SolverRow(leaves, r, ib),
              SolverRow(leaves, r + 1, left + right), SolverRow(leaves, r, left), SolverRow(leaves, r, right));
  }

  lemma TwelveBytes(r: nat)
    requires r < ROUNDS
    ensures Trimmed(CBITS, r + 1) <= LEAF_BYTES
  {
    assert CbytesOf(CBITS) == 2;
  }

  lemma SolverRowIs(leaves: Leaves, r: nat, idx: seq<nat>)
    requires CodeTree(leaves, CBITS, idx, r)
    ensures IsTreeRow(leaves, LEAF_BYTES, CBITS, r, SolverRow(leaves, r, idx))
    ensures SolverRow(leaves, r, idx).indices == idx
  {
  }

  lemma FixedRows(leaves: Leaves, r: nat, ia: seq<nat>, ib: seq<nat>, left: seq<nat>, right: seq<nat>)
    requires r < ROUNDS && |ia| == |ib| == |left| == |right| == Pow2(r)
    ensures Shaped(SolverRow(leaves, r, ia), r) && Embed(SolverRow(leaves, r, ia), r) == FixedTree(leaves, r, ia)
    ensures Shaped(SolverRow(leaves, r, ib), r) && Embed(SolverRow(leaves, r, ib), r) == FixedTree(leaves, r, ib)
    ensures Shaped(SolverRow(leaves, r, left), r) && Embed(SolverRow(leaves, r, left), r) == FixedTree(leaves, r, left)
    ensures Shaped(SolverRow(leaves, r, right), r)
        && Embed(SolverRow(leaves, r, right), r) == FixedTree(leaves, r, right)
    ensures Shaped(SolverRow(leaves, r + 1, left + right), r + 1) && |left + right| == Pow2(r + 1)
    ensures Embed(SolverRow(leaves, r + 1, left + right), r + 1) == FixedTree(leaves, r + 1, left + right)
  {
    FixedShape(leaves, r, ia);
    FixedShape(leaves, r, ib);
    FixedShape(leaves, r, left);
    FixedShape(leaves, r, right);
    FixedShape(leaves, r + 1, left + right);
  }

  ghost function SolverRow(leaves: Leaves, r: nat, idx: seq<nat>): Row {
    TreeRow(leaves, LEAF_BYTES, CBITS, r, idx)
  }

  lemma SamePair(a: Row, b: Row, u: Row, v: Row, r: nat)
    requires Shaped(a, r) && Shaped(b, r) && Shaped(u, r) && Shaped(v, r)
    ensures IsPair(Embed(a, r), Embed(b, r), Embed(u, r), Embed(v, r)) <==> IsPair(a, b, u, v)
  {
    SameEmbed(a, u, r);
    SameEmbed(a, v, r);
    SameEmbed(b, u, r);
    SameEmbed(b, v, r);
  }

  lemma SameEmbed(a: Row, b: Row, r: nat)
    requires Shaped(a, r) && Shaped(b, r)
    ensures Embed(a, r) == Embed(b, r) <==> a == b
  {
    if Embed(a, r) == Embed(b, r) {
      EmbedInjective(a, b, r);
    }
  }

  lemma FixedRow(leaves: Leaves, r: nat, a: RowFixed) returns (row: Row)
    requires r <= ROUNDS && IsFixedTree(leaves, r, a)
    ensures Shaped(row, r) && Embed(row, r) == a && IsTreeRow(leaves, LEAF_BYTES, CBITS, r, row)
  {
    var idx := a.indices[..Pow2(r)];
    FixedShape(leaves, r, idx);
    row := TreeRow(leaves, LEAF_BYTES, CBITS, r, idx);
  }

  /** A pair of packed trees emits nothing but packed trees one level up. */
  lemma FixedEmitsTree(leaves: Leaves, r: nat, a: RowFixed, b: RowFixed, y: RowFixed)
    requires r < ROUNDS && IsFixedTree(leaves, r, a) && IsFixedTree(leaves, r, b)
    requires 2 * Pow2(r) <= INDICES_MAX && y in EmitFixed(a, b, Pow2(r))
    ensures IsFixedTree(leaves, r + 1, y)
  {
    var ra := FixedRow(leaves, r, a);
    var rb := FixedRow(leaves, r, b);
    EmbedEmit(ra, rb, r);
    var z := Combine(ra, rb, CBITS);
    EmitMakesTree(leaves, LEAF_BYTES, CBITS, r, ra, rb, z);
    FixedTreeIs(leaves, r + 1, z.indices);
  }

  /** The packed rows of both halves of the tree `y` are among the rows. */
  ghost predicate HalvesAmong(leaves: Leaves, r: nat, rows: seq<RowFixed>, y: RowFixed)
    requires r < ROUNDS && IsFixedTree(leaves, r + 1, y)
  {
    var idx := y.indices[..Pow2(r + 1)];
    FixedTree(leaves, r, idx[..Pow2(r)]) in rows && FixedTree(leaves, r, idx[Pow2(r)..]) in rows
  }

  /**
   One kernel round on trees: trees again, each at most once; a tree comes out exactly
   when both its halves took part.
   */
  lemma KernelOnTrees(leaves: Leaves, r: nat, rows: seq<RowFixed>, y: RowFixed)
    requires r < ROUNDS && 2 * Pow2(r) <= INDICES_MAX
    requires OnlyTrees(leaves, r, multiset(rows))
    ensures PairBag(rows, EmissionFixed(Pow2(r)))[y]
         == if IsFixedTree(leaves, r + 1, y) && HalvesAmong(leaves, r, rows, y) then 1 else 0
  {
    forall x | x in rows ensures IsFixedTree(leaves, r, x) {
      assert multiset(rows)[x] > 0;
    }
    if IsFixedTree(leaves, r + 1, y) {
      TreeOnce(leaves, r, rows, y);
    } else {
      NoOthers(leaves, r, rows, y);
    }
  }

  lemma TreeOnce(leaves: Leaves, r: nat, rows: seq<RowFixed>, y: RowFixed)
    requires r < ROUNDS && 2 * Pow2(r) <= INDICES_MAX
    requires OnlyTrees(leaves, r, multiset(rows)) && forall x :: x in rows ==> IsFixedTree(leaves, r, x)
    requires IsFixedTree(leaves, r + 1, y)
    ensures PairBag(rows, EmissionFixed(Pow2(r)))[y] == if HalvesAmong(leaves, r, rows, y) then 1 else 0
  {
    var idx := y.indices[..Pow2(r + 1)];
    var left, right := idx[..Pow2(r)], idx[Pow2(r)..];
    assert idx == left + right;
    CodeTreeHalves(leaves, CBITS, left, right, r);
    var u, v := FixedTree(leaves, r, left), FixedTree(leaves, r, right);
    FixedTreeIs(leaves, r, left);
    FixedTreeIs(leaves, r, right);
    forall x, x' | x in rows && x' in rows
      ensures EmissionFixed(Pow2(r))(x, x')[y] == (if IsPair(x, x', u, v) then 1 else 0)
    {
      FixedCount(leaves, r, x, x', y, left, right);
    }
    assert left[0] != right[0];
    PairBagCount(rows, EmissionFixed(Pow2(r)), y, u, v);
  }

  lemma AllHalves(leaves: Leaves, r: nat, rows: seq<RowFixed>, y: RowFixed)
    requires r < ROUNDS && AllTrees(leaves, r, multiset(rows)) && IsFixedTree(leaves, r + 1, y)
    ensures HalvesAmong(leaves, r, rows, y)
  {
    var idx := y.indices[..Pow2(r + 1)];
    var left, right := idx[..Pow2(r)], idx[Pow2(r)..];
    assert idx == left + right;
    CodeTreeHalves(leaves, CBITS, left, right, r);
    FixedTreeIs(leaves, r, left);
    FixedTreeIs(leaves, r, right);
    assert multiset(rows)[FixedTree(leaves, r, left)] == 1 && multiset(rows)[FixedTree(leaves, r, right)] == 1;
  }

  lemma NoOthers(leaves: Leaves, r: nat, rows: seq<RowFixed>, y: RowFixed)
    requires r < ROUNDS && 2 * Pow2(r) <= INDICES_MAX
    requires forall x :: x in rows ==> IsFixedTree(leaves, r, x)
    requires !IsFixedTree(leaves, r + 1, y)
    ensures PairBag(rows, EmissionFixed(Pow2(r)))[y] == 0
  {
    forall i, j | 0 <= i < |rows| && 0 <= j < |rows|
      ensures EmissionFixed(Pow2(r))(rows[i], rows[j])[y] == 0
    {
      if y in EmitFixed(rows[i], rows[j], Pow2(r)) {
        FixedEmitsTree(leaves, r, rows[i], rows[j], y);
      }
    }
    PairBagNone(rows, EmissionFixed(Pow2(r)), y);
  }

  // ------------------------------------------------------------------ overflow

  /** Different trees of height `r` whose packed rows share a bucket. */
  ghost predicate SharesBucket(leaves: Leaves, r: nat, trees: seq<RowFixed>, bucket: nat) {
    && (forall i :: 0 <= i < |trees| ==> IsFixedTree(leaves, r, trees[i]) && RowBucket(trees[i]) == bucket)
    && (forall i, j :: 0 <= i < j < |trees| ==> trees[i] != trees[j])
  }

  /** No bucket gets more than 16 trees of height `r`. */
  ghost predicate BucketsSuffice(leaves: Leaves, r: nat) {
    forall trees, bucket :: SharesBucket(leaves, r, trees, bucket) ==> |trees| <= 16
  }

  /** No round overflows a bucket. */
  ghost predicate Uncrowded(leaves: Leaves) {
    forall r :: 0 <= r < ROUNDS ==> BucketsSuffice(leaves, r)
  }

  ghost function RowsAt(rows: seq<RowFixed>, js: seq<nat>): (picked: seq<RowFixed>)
    requires forall t :: 0 <= t < |js| ==> js[t] < |rows|
    ensures |picked| == |js| && forall t :: 0 <= t < |js| ==> picked[t] == rows[js[t]]
  {
    seq(|js|, t requires 0 <= t < |js| && js[t] < |rows| => rows[js[t]])
  }

  /** Rows that are all trees overflow only if some bucket has too many trees. */
  lemma SufficeMeansFit(leaves: Leaves, r: nat, rows: seq<RowFixed>)
    requires AllTrees(leaves, r, multiset(rows)) && BucketsSuffice(leaves, r)
    ensures NoBucketFull(rows)
  {
    forall i | 0 <= i < |rows| ensures !BucketFull(rows, i) {
      KeptIff(rows, i);
      var list := BucketList(RowBuckets(rows), i + 1, RowBucket(rows[i]));
      BucketMembers(RowBuckets(rows), i + 1, RowBucket(rows[i]));
      assert forall t :: 0 <= t < |list| ==> InBucket(RowBuckets(rows), i + 1, RowBucket(rows[i]), list[t]);
      BucketAscends(RowBuckets(rows), i + 1, RowBucket(rows[i]));
      PickedShare(leaves, r, rows, list, RowBucket(rows[i]));
      assert |list| <= 16;
    }
  }

  lemma PickedShare(leaves: Leaves, r: nat, rows: seq<RowFixed>, list: seq<nat>, bucket: nat)
    requires AllTrees(leaves, r, multiset(rows))
    requires forall t :: 0 <= t < |list| ==> list[t] < |rows| && RowBucket(rows[list[t]]) == bucket
    requires forall s, t :: 0 <= s < t < |list| ==> list[s] < list[t]
    ensures SharesBucket(leaves, r, RowsAt(rows, list), bucket)
  {
    var picked := RowsAt(rows, list);
    forall t | 0 <= t < |picked| ensures IsFixedTree(leaves, r, picked[t]) && RowBucket(picked[t]) == bucket {
      assert multiset(rows)[rows[list[t]]] > 0;
    }
    forall s, t | 0 <= s < t < |picked| ensures picked[s] != picked[t] {
      if picked[s] == picked[t] {
        TwiceInBag(rows, list[s], list[t]);
      }
    }
  }

  lemma TwiceInBag<T>(s: seq<T>, i: nat, j: nat)
    requires i < j < |s| && s[i] == s[j]
    ensures multiset(s)[s[i]] >= 2
  {
    assert s == s[..j] + [s[j]] + s[j + 1..];
    assert s[i] == s[..j][i];
  }

  /** What is left of a bag of trees after a kernel has dropped rows is a bag of trees. */
  lemma SurvivorsAreTrees(leaves: Leaves, r: nat, rows: seq<RowFixed>)
    requires OnlyTrees(leaves, r, multiset(rows))
    ensures OnlyTrees(leaves, r, multiset(Survivors(rows)))
  {
    forall y ensures multiset(Survivors(rows))[y] <= (if IsFixedTree(leaves, r, y) then 1 else 0) {
      KeptIsPart(rows, RowBuckets(rows), y);
      assert Within(Survivors(rows), rows, y);
      assert multiset(rows)[y] <= (if IsFixedTree(leaves, r, y) then 1 else 0);
    }
  }

  lemma OnlyFromKernel(leaves: Leaves, r: nat, rows: seq<RowFixed>, next: multiset<RowFixed>)
    requires r < ROUNDS && 2 * Pow2(r) <= INDICES_MAX && OnlyTrees(leaves, r, multiset(rows))
    requires next == PairBag(Survivors(rows), EmissionFixed(Pow2(r)))
    ensures OnlyTrees(leaves, r + 1, next)
  {
    SurvivorsAreTrees(leaves, r, rows);
    forall y ensures next[y] <= if IsFixedTree(leaves, r + 1, y) then 1 else 0 {
      KernelOnTrees(leaves, r, Survivors(rows), y);
    }
  }

  lemma AllFromAll(leaves: Leaves, r: nat, rows: seq<RowFixed>, next: multiset<RowFixed>)
    requires r < ROUNDS && 2 * Pow2(r) <= INDICES_MAX && AllTrees(leaves, r, multiset(rows))
    requires next == PairBag(rows, EmissionFixed(Pow2(r)))
    ensures AllTrees(leaves, r + 1, next)
  {
    forall y ensures next[y] == if IsFixedTree(leaves, r + 1, y) then 1 else 0 {
      KernelOnTrees(leaves, r, rows, y);
      if IsFixedTree(leaves, r + 1, y) {
        AllHalves(leaves, r, rows, y);
      }
    }
  }

  // ------------------------------------------------------------------ the first rows and the last

  /** One packed row per leaf. */
  function PackInitialRow(leaf: seq<byte>, leafIdx: nat): RowFixed
    requires |leaf| == LEAF_BYTES
  {
    PackRow(leaf, [leafIdx])
  }

  lemma InitialTrees(leaves: Leaves, rows: seq<RowFixed>)
    requires forall i :: 0 <= i < |leaves| ==> |leaves[i]| == LEAF_BYTES
    requires |rows| == |leaves| && forall j :: 0 <= j < |leaves| ==> rows[j] == PackInitialRow(leaves[j], j)
    ensures AllTrees(leaves, 0, multiset(rows))
  {
    assert Pow2(0) == 1;
    forall i | 0 <= i < |leaves| ensures IsFixedTree(leaves, 0, rows[i]) && rows[i] == FixedTree(leaves, 0, [i]) {
      LeafRow(leaves, i);
      FixedTreeIs(leaves, 0, [i]);
    }
    forall i, j | 0 <= i < j < |rows| ensures rows[i] != rows[j] {
      assert rows[i].indices[0] == i && rows[j].indices[0] == j;
    }
    forall y: RowFixed ensures multiset(rows)[y] == if IsFixedTree(leaves, 0, y) then 1 else 0 {
      CountDistinct(rows, y);
      if IsFixedTree(leaves, 0, y) {
        var i := y.indices[..1][0];
        assert y.indices[..1] == [i];
        assert rows[i] == y;
      }
    }
  }

  lemma LeafRow(leaves: Leaves, i: nat)
    requires i < |leaves| && |leaves[i]| == LEAF_BYTES
    ensures CodeTree(leaves, CBITS, [i], 0)
    ensures FixedTree(leaves, 0, [i]) == PackInitialRow(leaves[i], i)
  {
    assert Pow2(0) == 1 && Trimmed(CBITS, 0) == 0;
    var hash := XorFrom(leaves, LEAF_BYTES, 0, [i]);
    forall p | 0 <= p < LEAF_BYTES ensures hash[p] == leaves[i][p] {
      assert XorFold(leaves, [i][1..], p) == 0;
      XorZero(leaves[i][p]);
    }
    assert hash == leaves[i];
  }

  /** A row the pipeline should return: the indices of a solution, over a zero hash. */
  ghost predicate IsSolutionRow(leaves: Leaves, y: RowFixed) {
    y.hash == Hash(0, 0, 0) && EquihashSolution(leaves, 96, 5, y.indices)
  }

  /** After five rounds a zero hash marks exactly the solutions. */
  lemma ZeroHashIsSolution(leaves: Leaves, y: RowFixed)
    ensures IsFixedTree(leaves, ROUNDS, y) && y.hash == Hash(0, 0, 0) <==> IsSolutionRow(leaves, y)
  {
    PowersOfTwo();
    assert Pow2(ROUNDS) == 32;
    assert y.indices[..32] == y.indices;
    assert CbitsOf(96, 5) == CBITS && ValidParams(96, 5);
    FindsExactlySolutions(leaves, 96, 5, y.indices);
    if CodeTree(leaves, CBITS, y.indices, ROUNDS) {
      var z := TreeRow(leaves, LEAF_BYTES, CBITS, ROUNDS, y.indices);
      FixedShape(leaves, ROUNDS, y.indices);
      ZeroFilter(leaves, 96, 5, z);
      ZeroPack(z.hash);
      assert Embed(z, ROUNDS).indices == y.indices;
    }
  }

  lemma ZeroPack(h: seq<byte>)
    requires |h| == 2
    ensures PackHash(h) == Hash(0, 0, 0) <==> AllZero(h)
  {
    WordInjective(h[0], h[1], 0, 0, 0, 0, 0, 0);
    assert Word(0, 0, 0, 0) == 0;
  }
}
