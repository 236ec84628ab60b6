/**
 Equihash on a table of leaves.

 Leaf `i` is the byte string the digest gives for index `i`; nothing is assumed about
 its value. `EquihashSolution` is the definition of section 7.7.1 of the Zcash Protocol
 Specification. `SpecTree` is the same condition in recursive form.
 */
module Equihash {
  import opened Arith
  import opened Bits

  type Leaves = seq<seq<byte>>

  /** What a miner varies from one search to the next. */
  type Nonce = seq<byte>

  ghost function LeafByte(leaves: Leaves, i: nat, p: nat): byte {
    if i < |leaves| && p < |leaves[i]| then leaves[i][p] else 0
  }

  ghost function XorFold(leaves: Leaves, idx: seq<nat>, p: nat): byte {
    if idx == [] then 0 else LeafByte(leaves, idx[0], p) ^ XorFold(leaves, idx[1..], p)
  }

  /** Byte `p` of the exclusive or of the leaves named by `idx`. */
  ghost function XorAt(leaves: Leaves, idx: seq<nat>, p: nat): byte {
    XorFold(leaves, idx, p)
  }

  lemma {:induction false} XorAtAppend(leaves: Leaves, a: seq<nat>, b: seq<nat>, p: nat)
    ensures XorAt(leaves, a + b, p) == XorAt(leaves, a, p) ^ XorAt(leaves, b, p)
  {
    if a == [] {
      assert a + b == b;
    } else {
      assert (a + b)[1..] == a[1..] + b;
      XorAtAppend(leaves, a[1..], b, p);
    }
  }

  /** Bit `q` of the exclusive or, counted from the most significant bit of byte 0. */
  ghost predicate XorBit(leaves: Leaves, idx: seq<nat>, q: nat) {
    Bit(XorAt(leaves, idx, q / 8), q % 8)
  }

  /** The first `m` bits of the exclusive or are zero. */
  ghost predicate ZeroBits(leaves: Leaves, idx: seq<nat>, m: nat) {
    forall q :: 0 <= q < m ==> !XorBit(leaves, idx, q)
  }

  predicate Disjoint(a: seq<nat>, b: seq<nat>) {
    forall i, j :: 0 <= i < |a| && 0 <= j < |b| ==> a[i] != b[j]
  }

  // ------------------------------------------------------------------ the definition

  /** Position of the `w`-th subtree with `2^r` leaves. */
  ghost function At(r: nat, w: nat): nat {
    if w == 0 then 0 else At(r, w - 1) + Pow2(r)
  }

  lemma {:induction false} AtIsProduct(r: nat, w: nat)
    ensures At(r, w) == w * Pow2(r)
  {
    if w != 0 {
      AtIsProduct(r, w - 1);
      Distribute(w - 1, 1, Pow2(r));
    }
  }

  /**
   A subtree of height `r` has its smaller first index on the left, and its exclusive
   or starts with `r * cbits` zero bits.
   */
  ghost predicate SubtreeOk(leaves: Leaves, cbits: nat, sub: seq<nat>, r: nat) {
    && r >= 1 && |sub| == Pow2(r)
    && sub[0] < sub[Pow2(r - 1)]
    && ZeroBits(leaves, sub, r * cbits)
  }

  ghost predicate BlockOk(leaves: Leaves, cbits: nat, idx: seq<nat>, r: nat, w: nat) {
    && At(r, w) + Pow2(r) <= |idx|
    && SubtreeOk(leaves, cbits, idx[At(r, w)..At(r, w) + Pow2(r)], r)
  }

  ghost predicate BlocksOk(leaves: Leaves, cbits: nat, idx: seq<nat>, height: nat) {
    forall r, w :: 1 <= r <= height && 0 <= w < Pow2(height - r) ==> BlockOk(leaves, cbits, idx, r, w)
  }

  ghost predicate Distinct(idx: seq<nat>) {
    forall i, j :: 0 <= i < j < |idx| ==> idx[i] != idx[j]
  }

  ghost predicate FlatTree(leaves: Leaves, cbits: nat, idx: seq<nat>, height: nat) {
    && |idx| == Pow2(height)
    && (forall i :: 0 <= i < |idx| ==> idx[i] < |leaves|)
    && Distinct(idx)
    && BlocksOk(leaves, cbits, idx, height)
  }

  /**
   A solution for `(n, k)`: `2^k` distinct indices whose leaves have exclusive or zero
   over all `n` bits, bound to Wagner's algorithm by the conditions on subtrees.
   */
  ghost predicate EquihashSolution(leaves: Leaves, n: nat, k: nat, idx: seq<nat>) {
    FlatTree(leaves, n / (k + 1), idx, k) && ZeroBits(leaves, idx, n)
  }

  /** Different numbers below a bound are no more than the bound. */
  lemma {:induction false} Pigeonhole(idx: seq<nat>, bound: nat)
    requires Distinct(idx) && forall i :: 0 <= i < |idx| ==> idx[i] < bound
    ensures |idx| <= bound
    decreases bound
  {
    if idx == [] {
    } else if i :| 0 <= i < |idx| && idx[i] == bound - 1 {
      var rest := idx[..i] + idx[i + 1..];
      forall p | 0 <= p < |rest| ensures rest[p] < bound - 1 {
        assert rest[p] == if p < i then idx[p] else idx[p + 1];
      }
      assert Distinct(rest) by {
        forall p, q | 0 <= p < q < |rest| ensures rest[p] != rest[q] {
          assert rest[p] == if p < i then idx[p] else idx[p + 1];
          assert rest[q] == if q < i then idx[q] else idx[q + 1];
        }
      }
      Pigeonhole(rest, bound - 1);
    } else {
      assert idx[0] < bound;
      Pigeonhole(idx, bound - 1);
    }
  }

  // ------------------------------------------------------------------ recursive form

  /** What the root of a tree demands of its two halves. */
  ghost predicate RootOk(leaves: Leaves, cbits: nat, left: seq<nat>, right: seq<nat>, r: nat) {
    && left != [] && right != []
    && left[0] < right[0]
    && Disjoint(left, right)
    && ZeroBits(leaves, left + right, r * cbits)
  }

  ghost predicate SpecTree(leaves: Leaves, cbits: nat, idx: seq<nat>, r: nat) {
    && |idx| == Pow2(r)
    && if r == 0 then idx[0] < |leaves| else
         var left, right := idx[..Pow2(r - 1)], idx[Pow2(r - 1)..];
         && SpecTree(leaves, cbits, left, r - 1)
         && SpecTree(leaves, cbits, right, r - 1)
         && RootOk(leaves, cbits, left, right, r)
  }

  lemma JoinTrees(leaves: Leaves, cbits: nat, a: seq<nat>, b: seq<nat>, r: nat)
    requires r >= 1 && SpecTree(leaves, cbits, a, r - 1) && SpecTree(leaves, cbits, b, r - 1)
    requires RootOk(leaves, cbits, a, b, r)
    ensures SpecTree(leaves, cbits, a + b, r)
  {
    assert (a + b)[..Pow2(r - 1)] == a && (a + b)[Pow2(r - 1)..] == b;
  }

  lemma {:induction false} SpecTreeIsFlat(leaves: Leaves, cbits: nat, idx: seq<nat>, r: nat)
    ensures SpecTree(leaves, cbits, idx, r) <==> FlatTree(leaves, cbits, idx, r)
  {
    if |idx| != Pow2(r) {
    } else if r == 0 {
      assert Pow2(0) == 1;
    } else {
      var left, right := idx[..Pow2(r - 1)], idx[Pow2(r - 1)..];
      assert idx == left + right;
      SpecTreeIsFlat(leaves, cbits, left, r - 1);
      SpecTreeIsFlat(leaves, cbits, right, r - 1);
      FlatTreeHalves(leaves, cbits, left, right, r);
    }
  }

  lemma FlatTreeHalves(leaves: Leaves, cbits: nat, left: seq<nat>, right: seq<nat>, r: nat)
    requires r >= 1 && |left| == |right| == Pow2(r - 1)
    ensures FlatTree(leaves, cbits, left + right, r)
       <==> FlatTree(leaves, cbits, left, r - 1) && FlatTree(leaves, cbits, right, r - 1)
            && RootOk(leaves, cbits, left, right, r)
  {
    assert Pow2(r) == 2 * Pow2(r - 1) && At(r, 0) == 0;
    assert (left + right)[0..Pow2(r)] == left + right;
    InRangeHalves(leaves, left, right);
    DistinctHalves(left, right);
    BlocksHalves(leaves, cbits, left, right, r);
  }

  lemma InRangeHalves(leaves: Leaves, left: seq<nat>, right: seq<nat>)
    ensures (forall i :: 0 <= i < |left + right| ==> (left + right)[i] < |leaves|)
       <==> (forall i :: 0 <= i < |left| ==> left[i] < |leaves|)
            && (forall i :: 0 <= i < |right| ==> right[i] < |leaves|)
  {
    var idx := left + right;
    assert forall i :: 0 <= i < |left| ==> left[i] == idx[i];
    assert forall i :: 0 <= i < |right| ==> right[i] == idx[|left| + i];
  }

  lemma DistinctHalves(left: seq<nat>, right: seq<nat>)
    ensures Distinct(left + right) <==> Distinct(left) && Distinct(right) && Disjoint(left, right)
  {
    var idx := left + right;
    assert forall i :: 0 <= i < |left| ==> left[i] == idx[i];
    assert forall i :: 0 <= i < |right| ==> right[i] == idx[|left| + i];
  }

  lemma BlocksHalves(leaves: Leaves, cbits: nat, left: seq<nat>, right: seq<nat>, r: nat)
    requires r >= 1 && |left| == |right| == Pow2(r - 1)
    ensures BlocksOk(leaves, cbits, left + right, r)
       <==> BlocksOk(leaves, cbits, left, r - 1) && BlocksOk(leaves, cbits, right, r - 1)
            && BlockOk(leaves, cbits, left + right, r, 0)
  {
    var idx := left + right;
    assert Pow2(0) == 1;
    forall q, w | 1 <= q <= r - 1 && 0 <= w < Pow2(r - 1 - q)
      ensures BlockOk(leaves, cbits, left, q, w) <==> BlockOk(leaves, cbits, idx, q, w)
      ensures BlockOk(leaves, cbits, right, q, w) <==> BlockOk(leaves, cbits, idx, q, w + Pow2(r - 1 - q))
    {
      BlockLeft(leaves, cbits, left, right, r, q, w);
      BlockRight(leaves, cbits, left, right, r, q, w);
      HalfOffset(r, q, w);
    }
    if BlocksOk(leaves, cbits, left, r - 1) && BlocksOk(leaves, cbits, right, r - 1)
       && BlockOk(leaves, cbits, idx, r, 0) {
      forall q, w | 1 <= q <= r && 0 <= w < Pow2(r - q)
        ensures BlockOk(leaves, cbits, idx, q, w)
      {
        if q < r {
          HalfOffset(r, q, w);
          if w < Pow2(r - 1 - q) {
            assert BlockOk(leaves, cbits, left, q, w);
          } else {
            assert BlockOk(leaves, cbits, right, q, w - Pow2(r - 1 - q));
          }
        }
      }
    }
    if BlocksOk(leaves, cbits, idx, r) {
      forall q, w | 1 <= q <= r - 1 && 0 <= w < Pow2(r - 1 - q)
        ensures BlockOk(leaves, cbits, left, q, w) && BlockOk(leaves, cbits, right, q, w)
      {
        HalfOffset(r, q, w);
        assert BlockOk(leaves, cbits, idx, q, w);
        assert BlockOk(leaves, cbits, idx, q, w + Pow2(r - 1 - q));
      }
    }
  }

  lemma BlockLeft(leaves: Leaves, cbits: nat, left: seq<nat>, right: seq<nat>, r: nat, q: nat, w: nat)
    requires 1 <= q <= r - 1 && w < Pow2(r - 1 - q)
    requires |left| == |right| == Pow2(r - 1)
    ensures BlockOk(leaves, cbits, left, q, w) <==> BlockOk(leaves, cbits, left + right, q, w)
  {
    BlockInside(r - 1, q, w);
    var from := At(q, w);
    assert left[from..from + Pow2(q)] == (left + right)[from..from + Pow2(q)];
  }

  lemma BlockRight(leaves: Leaves, cbits: nat, left: seq<nat>, right: seq<nat>, r: nat, q: nat, w: nat)
    requires 1 <= q <= r - 1 && w < Pow2(r - 1 - q)
    requires |left| == |right| == Pow2(r - 1)
    ensures BlockOk(leaves, cbits, right, q, w)
       <==> BlockOk(leaves, cbits, left + right, q, w + Pow2(r - 1 - q))
  {
    BlockInside(r - 1, q, w);
    HalfOffset(r, q, w);
    SliceRight(left, right, At(q, w), At(q, w + Pow2(r - 1 - q)), Pow2(q));
  }

  lemma SliceRight(left: seq<nat>, right: seq<nat>, from: nat, shifted: nat, len: nat)
    requires from + len <= |right| && shifted == |left| + from
    ensures right[from..from + len] == (left + right)[shifted..shifted + len]
  {
  }

  lemma BlockInside(height: nat, q: nat, w: nat)
    requires 1 <= q <= height && w < Pow2(height - q)
    ensures At(q, w) + Pow2(q) <= Pow2(height)
    ensures Pow2(q) == 2 * Pow2(q - 1)
  {
    Pow2Sum(height - q, q);
    AtIsProduct(q, w);
    NextMultiple(w, Pow2(height - q), Pow2(q));
  }

  lemma HalfOffset(r: nat, q: nat, w: nat)
    requires 1 <= q < r
    ensures At(q, w + Pow2(r - 1 - q)) == Pow2(r - 1) + At(q, w)
    ensures Pow2(r - q) == 2 * Pow2(r - 1 - q)
  {
    Pow2Sum(r - 1 - q, q);
    AtIsProduct(q, w);
    AtIsProduct(q, w + Pow2(r - 1 - q));
    Distribute(w, Pow2(r - 1 - q), Pow2(q));
  }
}
