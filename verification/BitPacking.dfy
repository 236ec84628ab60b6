/**
 The wire format of a solution: each index as `bitsPer` bits, most significant first,
 one after the other, the last byte padded with zeros. The CPU solver, the native GPU
 miner and the browser miner each have a copy of this packer.
 */
module BitPacking {
  import opened Arith
  import opened Bits

  /** The low `m` bits of `x`, most significant first. */
  ghost function NumberBits(x: nat, m: nat): (bits: seq<bool>)
    ensures |bits| == m
  {
    if m == 0 then [] else NumberBits(x / 2, m - 1) + [x % 2 == 1]
  }

  ghost function FromBits(bits: seq<bool>): nat {
    if bits == [] then 0
    else 2 * FromBits(bits[..|bits| - 1]) + if bits[|bits| - 1] then 1 else 0
  }

  /** All indices written one after the other. */
  ghost function ListBits(indices: seq<nat>, bitsPer: nat): (bits: seq<bool>)
    ensures |bits| == bitsPer * |indices|
  {
    if indices == [] then [] else
      assert bitsPer * |indices| == bitsPer * (|indices| - 1) + bitsPer;
      ListBits(indices[..|indices| - 1], bitsPer) + NumberBits(indices[|indices| - 1], bitsPer)
  }

  ghost function BytesFor(bits: nat): nat {
    (bits + 7) / 8
  }

  /** The bits of a byte string in order. */
  ghost function ByteBits(bytes: seq<byte>): (bits: seq<bool>)
    ensures |bits| == 8 * |bytes|
  {
    seq(8 * |bytes|, q requires 0 <= q < 8 * |bytes| => Bit(bytes[q / 8], q % 8))
  }

  /** `out` holds `bits`, then zeros up to the end of its last byte. */
  ghost predicate Holds(out: seq<byte>, bits: seq<bool>) {
    && |bits| <= 8 * |out|
    && forall q {:trigger ByteBits(out)[q]} :: 0 <= q < 8 * |out| ==> ByteBits(out)[q] == (q < |bits| && bits[q])
  }

  /** The packed form of a list of indices. */
  ghost predicate IsPacked(out: seq<byte>, indices: seq<nat>, bitsPer: nat) {
    |out| == BytesFor(bitsPer * |indices|) && Holds(out, ListBits(indices, bitsPer))
  }

  /** Reading back `count` numbers of `bitsPer` bits each. */
  ghost function Numbers(bits: seq<bool>, bitsPer: nat, count: nat): (indices: seq<nat>)
    requires bitsPer * count <= |bits|
    ensures |indices| == count
  {
    if count == 0 then [] else
      assert bitsPer * count == bitsPer * (count - 1) + bitsPer;
      assert bitsPer * (count - 1) >= 0;
      Numbers(bits, bitsPer, count - 1) + [FromBits(bits[bitsPer * (count - 1)..bitsPer * count])]
  }

  ghost function Unpack(out: seq<byte>, bitsPer: nat, count: nat): seq<nat>
    requires bitsPer * count <= 8 * |out|
  {
    Numbers(ByteBits(out), bitsPer, count)
  }

  // ------------------------------------------------------------------ reading back

  lemma {:induction false} FromNumberBits(x: nat, m: nat)
    requires x < Pow2(m)
    ensures FromBits(NumberBits(x, m)) == x
  {
    if m != 0 {
      FromNumberBits(x / 2, m - 1);
      var bits := NumberBits(x, m);
      assert bits[..m - 1] == NumberBits(x / 2, m - 1);
    }
  }

  lemma PrefixParts(a: seq<bool>, b: seq<bool>, bits: seq<bool>, from: nat)
    requires a + b <= bits && from == |a|
    ensures a <= bits && bits[from..from + |b|] == b
  {
    assert bits[..from + |b|] == a + b;
    assert bits[..from] == a;
  }

  lemma ListBitsLast(indices: seq<nat>, bitsPer: nat)
    requires indices != []
    ensures var count := |indices|;
            && bitsPer * count == bitsPer * (count - 1) + bitsPer
            && ListBits(indices, bitsPer)
               == ListBits(indices[..count - 1], bitsPer) + NumberBits(indices[count - 1], bitsPer)
  {
  }

  lemma {:induction false} NumbersOfList(bits: seq<bool>, indices: seq<nat>, bitsPer: nat)
    requires forall i :: 0 <= i < |indices| ==> indices[i] < Pow2(bitsPer)
    requires ListBits(indices, bitsPer) <= bits
    ensures Numbers(bits, bitsPer, |indices|) == indices
  {
    if indices != [] {
      var count := |indices|;
      var init, last := indices[..count - 1], indices[count - 1];
      var from := bitsPer * (count - 1);
      ListBitsLast(indices, bitsPer);
      PrefixParts(ListBits(init, bitsPer), NumberBits(last, bitsPer), bits, from);
      NumbersOfList(bits, init, bitsPer);
      NumbersStep(bits, bitsPer, init, last, from);
      assert init + [last] == indices;
    }
  }

  lemma NumbersStep(bits: seq<bool>, bitsPer: nat, init: seq<nat>, last: nat, from: nat)
    requires last < Pow2(bitsPer) && from == bitsPer * |init| && bitsPer * (|init| + 1) == from + bitsPer <= |bits|
    requires bits[from..from + bitsPer] == NumberBits(last, bitsPer)
    requires Numbers(bits, bitsPer, |init|) == init
    ensures Numbers(bits, bitsPer, |init| + 1) == init + [last]
  {
    FromNumberBits(last, bitsPer);
    NumbersLast(bits, bitsPer, |init| + 1, from);
  }

  lemma NumbersLast(bits: seq<bool>, bitsPer: nat, count: nat, from: nat)
    requires count > 0 && from == bitsPer * (count - 1) && bitsPer * count == from + bitsPer <= |bits|
    ensures Numbers(bits, bitsPer, count) == Numbers(bits, bitsPer, count - 1) + [FromBits(bits[from..from + bitsPer])]
  {
  }

  /** Unpacking the packed form gives the list back. */
  lemma UnpackPacked(out: seq<byte>, indices: seq<nat>, bitsPer: nat)
    requires IsPacked(out, indices, bitsPer)
    requires forall i :: 0 <= i < |indices| ==> indices[i] < Pow2(bitsPer)
    ensures Unpack(out, bitsPer, |indices|) == indices
  {
    var bits := ListBits(indices, bitsPer);
    assert bits == ByteBits(out)[..|bits|];
    NumbersOfList(ByteBits(out), indices, bitsPer);
  }

  /** A byte string is determined by the bits it holds and its length. */
  lemma HoldsUnique(a: seq<byte>, b: seq<byte>, bits: seq<bool>)
    requires |a| == |b| && Holds(a, bits) && Holds(b, bits)
    ensures a == b
  {
    forall p | 0 <= p < |a| ensures a[p] == b[p] {
      forall j | 0 <= j < 8 ensures Bit(a[p], j) <==> Bit(b[p], j) {
        var q := 8 * p + j;
        assert q / 8 == p && q % 8 == j;
        assert ByteBits(a)[q] == ByteBits(b)[q];
      }
      SameBits(a[p], b[p]);
    }
  }

  /** Whoever packs them, lists of one length have the same packed form exactly when they are equal. */
  lemma PackedIffEqual(a: seq<byte>, b: seq<byte>, indices: seq<nat>, indices': seq<nat>, bitsPer: nat)
    requires IsPacked(a, indices, bitsPer) && IsPacked(b, indices', bitsPer) && |indices| == |indices'|
    requires forall i :: 0 <= i < |indices| ==> indices[i] < Pow2(bitsPer) && indices'[i] < Pow2(bitsPer)
    ensures a == b <==> indices == indices'
  {
    if indices == indices' {
      HoldsUnique(a, b, ListBits(indices, bitsPer));
    }
    UnpackPacked(a, indices, bitsPer);
    UnpackPacked(b, indices', bitsPer);
  }

  // ------------------------------------------------------------------ the loop

  lemma {:induction false} NumberBitAt(x: nat, m: nat, b: nat)
    requires b < m
    ensures NumberBits(x, m)[m - 1 - b] == ((x / Pow2(b)) % 2 == 1)
  {
    if b == 0 {
      assert Pow2(0) == 1;
    } else {
      NumberBitAt(x / 2, m - 1, b - 1);
      DivDiv(x, Pow2(b - 1));
    }
  }

  /**
   Packs the indices bit by bit. A shift by 32 or more would abort, so `bitsPer` is at
   most 32; bits of an index above `bitsPer` are dropped.
   */
  method CompressIndices(bitsPer: nat, indices: seq<nat>) returns (packed: seq<byte>)
    requires bitsPer <= 32
    ensures IsPacked(packed, indices, bitsPer)
  {
    var totalBits := bitsPer * |indices|;
    var out := new byte[(totalBits + 7) / 8](_ => 0);
    var pos := 0;
    for i := 0 to |indices|
      invariant pos == bitsPer * i <= totalBits
      invariant Holds(out[..], ListBits(indices[..i], bitsPer))
    {
      NextFits(bitsPer, i, |indices|);
      pos := PackIndex(out, pos, bitsPer, indices[i], ListBits(indices[..i], bitsPer));
      assert indices[..i + 1][..i] == indices[..i];
    }
    assert indices[..|indices|] == indices;
    packed := out[..];
  }

  /** The copy for (96, 5): 32 indices in 68 bytes. */
  method CompressIndices965(indices: seq<nat>) returns (packed: seq<byte>)
    requires |indices| == 32
    ensures |packed| == 68 && IsPacked(packed, indices, 17)
  {
    packed := CompressIndices(17, indices);
  }

  /** The inner loop: the bits of one index, most significant first. */
  method PackIndex(out: array<byte>, start: nat, bitsPer: nat, idx: nat, ghost done: seq<bool>) returns (pos: nat)
    requires start == |done| && start + bitsPer <= 8 * out.Length
    requires Holds(out[..], done)
    modifies out
    ensures pos == start + bitsPer
    ensures Holds(out[..], done + NumberBits(idx, bitsPer))
  {
    pos := start;
    var b := bitsPer;
    ghost var bits := done;
    while b > 0
      invariant 0 <= b <= bitsPer && pos == start + (bitsPer - b)
      invariant bits == done + NumberBits(idx, bitsPer)[..bitsPer - b]
      invariant Holds(out[..], bits)
    {
      b := b - 1;
      ghost var before := out[..];
      var bit := ShiftRight(idx, b) % 2;
      NumberBitAt(idx, bitsPer, b);
      if bit == 1 {
        out[pos / 8] := out[pos / 8] | BitMask(pos % 8);
        assert out[..] == before[pos / 8 := before[pos / 8] | BitMask(pos % 8)];
      }
      HoldsNext(before, out[..], bits, bit == 1);
      bits := bits + [bit == 1];
      pos := pos + 1;
    }
    assert NumberBits(idx, bitsPer)[..bitsPer] == NumberBits(idx, bitsPer);
  }

  lemma NextFits(bitsPer: nat, i: nat, count: nat)
    requires i < count
    ensures bitsPer * i + bitsPer == bitsPer * (i + 1) <= bitsPer * count
  {
    assert bitsPer * count == bitsPer * (i + 1) + bitsPer * (count - i - 1);
    assert bitsPer * (count - i - 1) >= 0;
  }

  /** Writing the next bit. */
  lemma HoldsNext(before: seq<byte>, after: seq<byte>, bits: seq<bool>, bit: bool)
    requires Holds(before, bits) && |bits| < 8 * |before|
    requires after == if bit then before[|bits| / 8 := before[|bits| / 8] | BitMask(|bits| % 8)] else before
    ensures Holds(after, bits + [bit])
  {
    forall q | 0 <= q < 8 * |after| ensures ByteBits(after)[q] == (q < |bits| + 1 && (bits + [bit])[q]) {
      HoldsNextAt(before, after, bits, bit, q);
    }
  }

  lemma HoldsNextAt(before: seq<byte>, after: seq<byte>, bits: seq<bool>, bit: bool, q: nat)
    requires Holds(before, bits) && |bits| < 8 * |before|
    requires after == if bit then before[|bits| / 8 := before[|bits| / 8] | BitMask(|bits| % 8)] else before
    requires q < 8 * |after|
    ensures ByteBits(after)[q] == (q < |bits| + 1 && (bits + [bit])[q])
  {
    assert ByteBits(before)[q] == (q < |bits| && bits[q]);
    if bit && q / 8 == |bits| / 8 {
      SetBit(before[q / 8], |bits| % 8, q % 8);
      assert q == |bits| <==> q % 8 == |bits| % 8;
    }
  }
}
