/**
 Bytes and their bits, counted from the most significant one.
 */
module Bits {

  type byte = bv8

  const BIT_MASKS: seq<byte> := [0x80, 0x40, 0x20, 0x10, 0x08, 0x04, 0x02, 0x01]
  const TOP_MASKS: seq<byte> := [0x00, 0x80, 0xC0, 0xE0, 0xF0, 0xF8, 0xFC, 0xFE, 0xFF]

  /** The mask of bit `j` of a byte, bit 0 being the most significant: `1 << (7 - j)`. */
  function BitMask(j: nat): byte
    requires j < 8
  {
    BIT_MASKS[j]
  }

  /** The mask of the first `m` bits of a byte: `0xFF << (8 - m)`. */
  function TopMask(m: nat): byte
    requires m <= 8
  {
    TOP_MASKS[m]
  }

  predicate Bit(b: byte, j: nat)
    requires j < 8
  {
    b & BitMask(j) != 0
  }

  lemma ZeroByte(b: byte)
    ensures b == 0 <==> forall j :: 0 <= j < 8 ==> !Bit(b, j)
  {
    if forall j :: 0 <= j < 8 ==> !Bit(b, j) {
      SameBits(b, 0);
    }
  }

  /** Two bytes start with the same `m` bits. */
  predicate SameTop(a: byte, b: byte, m: nat)
    requires m <= 8
  {
    a & TopMask(m) == b & TopMask(m)
  }

  lemma XorEqual(a: byte, b: byte)
    ensures a ^ b == 0 <==> a == b
  {
  }

  lemma XorZero(b: byte)
    ensures b ^ 0 == b
  {
  }

  lemma BitXor(a: byte, b: byte, j: nat)
    requires j < 8
    ensures Bit(a ^ b, j) <==> Bit(a, j) != Bit(b, j)
  {
    MaskXor(a, b, BitMask(j));
  }

  lemma MaskXor(a: byte, b: byte, m: byte)
    requires m == 0x80 || m == 0x40 || m == 0x20 || m == 0x10 || m == 0x08 || m == 0x04 || m == 0x02 || m == 0x01
    ensures (a ^ b) & m != 0 <==> (a & m != 0) != (b & m != 0)
  {
  }

  /** Two bytes agree under a top mask exactly when they agree bit by bit. */
  lemma SameTopBits(a: byte, b: byte, m: nat)
    requires m <= 8
    ensures SameTop(a, b, m) <==> forall j :: 0 <= j < m ==> (Bit(a, j) <==> Bit(b, j))
  {
    forall j | 0 <= j < 8 ensures Bit(a ^ b, j) <==> Bit(a, j) != Bit(b, j) {
      BitXor(a, b, j);
    }
    ZeroTopBits(a, b, a ^ b, m);
    ZeroXorMask(a, b, TopMask(m));
  }

  lemma {:induction false} ZeroTopBits(a: byte, b: byte, x: byte, m: nat)
    requires m <= 8
    requires forall j :: 0 <= j < 8 ==> (Bit(x, j) <==> Bit(a, j) != Bit(b, j))
    ensures x & TopMask(m) == 0 <==> forall j :: 0 <= j < m ==> (Bit(a, j) <==> Bit(b, j))
  {
    if m != 0 {
      ZeroTopBits(a, b, x, m - 1);
      TopMaskStep(x, m);
    }
  }

  lemma TopMaskStep(b: byte, m: nat)
    requires 1 <= m <= 8
    ensures b & TopMask(m) == 0 <==> b & TopMask(m - 1) == 0 && !Bit(b, m - 1)
  {
  }

  lemma ZeroXorMask(a: byte, b: byte, m: byte)
    ensures (a ^ b) & m == 0 <==> a & m == b & m
  {
  }

  /** Bytes that agree under a top mask enclose only bytes that agree too. */
  lemma TopMaskConvex(a: byte, b: byte, c: byte, m: nat)
    requires m <= 8
    requires a <= b <= c && SameTop(a, c, m)
    ensures SameTop(a, b, m)
  {
  }

  /** Setting bit `j` sets bit `j` and no other. */
  lemma SetBit(b: byte, j: nat, j': nat)
    requires j < 8 && j' < 8
    ensures Bit(b | BitMask(j), j') <==> j == j' || Bit(b, j')
  {
  }

  /** A byte is determined by its bits. */
  lemma SameBits(a: byte, b: byte)
    requires forall j :: 0 <= j < 8 ==> (Bit(a, j) <==> Bit(b, j))
    ensures a == b
  {
    assert Bit(a, 0) == Bit(b, 0) && Bit(a, 1) == Bit(b, 1) && Bit(a, 2) == Bit(b, 2) && Bit(a, 3) == Bit(b, 3)
        && Bit(a, 4) == Bit(b, 4) && Bit(a, 5) == Bit(b, 5) && Bit(a, 6) == Bit(b, 6) && Bit(a, 7) == Bit(b, 7);
  }
}
