/**
 Tables of zero leaves. Every run of `2^r` indices is a tree over them, so they have
 solutions, and all rows of a round share one hash.
 */
module ZeroLeaves {
  import opened Arith
  import opened Bits
  import opened Equihash

  ghost function ZeroTable(width: nat, count: nat): (leaves: Leaves)
    ensures |leaves| == count && forall i :: 0 <= i < count ==> |leaves[i]| == width
  {
    seq(count, i requires 0 <= i => seq(width, b requires 0 <= b => 0))
  }

  ghost function Iota(start: nat, len: nat): (idx: seq<nat>)
    ensures |idx| == len && forall i :: 0 <= i < len ==> idx[i] == start + i
  {
    seq(len, i requires 0 <= i => start + i)
  }

  lemma {:induction false} ZeroXor(width: nat, count: nat, idx: seq<nat>, p: nat)
    ensures XorAt(ZeroTable(width, count), idx, p) == 0
  {
    if idx != [] {
      ZeroXor(width, count, idx[1..], p);
      XorZero(0);
    }
  }

  lemma NoBits(width: nat, count: nat, idx: seq<nat>, q: nat)
    ensures !XorBit(ZeroTable(width, count), idx, q)
  {
    ZeroXor(width, count, idx, q / 8);
    ZeroByte(0);
  }

  lemma IotaHalves(start: nat, h: nat)
    ensures Iota(start, 2 * h) == Iota(start, h) + Iota(start + h, h)
    ensures Disjoint(Iota(start, h), Iota(start + h, h))
  {
  }

  lemma ZeroRoot(width: nat, count: nat, cbits: nat, start: nat, h: nat, r: nat)
    requires h > 0
    ensures RootOk(ZeroTable(width, count), cbits, Iota(start, h), Iota(start + h, h), r)
  {
    IotaHalves(start, h);
    var leaves, root := ZeroTable(width, count), Iota(start, h) + Iota(start + h, h);
    forall q | 0 <= q < r * cbits ensures !XorBit(leaves, root, q) {
      NoBits(width, count, root, q);
    }
  }

  /** Any run of `2^r` indices is a tree over zero leaves, whatever the width compared. */
  lemma {:induction false} ZeroTree(width: nat, count: nat, cbits: nat, start: nat, r: nat)
    requires start + Pow2(r) <= count
    ensures SpecTree(ZeroTable(width, count), cbits, Iota(start, Pow2(r)), r)
    decreases r
  {
    if r == 0 {
      assert Pow2(0) == 1;
    } else {
      var h := Pow2(r - 1);
      assert Pow2(r) == 2 * h;
      ZeroTree(width, count, cbits, start, r - 1);
      ZeroTree(width, count, cbits, start + h, r - 1);
      ZeroRoot(width, count, cbits, start, h, r);
      IotaHalves(start, h);
      JoinTrees(ZeroTable(width, count), cbits, Iota(start, h), Iota(start + h, h), r);
    }
  }

  /** Zero leaves have a solution as soon as there are enough of them. */
  lemma ZeroSolution(width: nat, count: nat, n: nat, k: nat)
    requires Pow2(k) <= count
    ensures EquihashSolution(ZeroTable(width, count), n, k, Iota(0, Pow2(k)))
  {
    ZeroTree(width, count, n / (k + 1), 0, k);
    SpecTreeIsFlat(ZeroTable(width, count), n / (k + 1), Iota(0, Pow2(k)), k);
    forall q | 0 <= q < n ensures !XorBit(ZeroTable(width, count), Iota(0, Pow2(k)), q) {
      NoBits(width, count, Iota(0, Pow2(k)), q);
    }
  }
}
