/**
 Numbers as little-endian bytes.
 */
module LittleEndian {
  import opened Bits

  /** The number a byte string spells. */
  function FromBytes(bytes: seq<byte>): nat {
    if bytes == [] then 0 else bytes[0] as nat + 256 * FromBytes(bytes[1..])
  }

  function LowByte(x: nat): (b: byte)
    ensures b as nat == x % 256
  {
    (x % 256) as byte
  }

  /** The lowest `count` bytes of a number. */
  function ToBytes(x: nat, count: nat): (bytes: seq<byte>)
    ensures |bytes| == count
  {
    if count == 0 then [] else [LowByte(x)] + ToBytes(x / 256, count - 1)
  }

  /** A number moved up by `m` bytes. */
  function Shift(x: nat, m: nat): nat {
    if m == 0 then x else 256 * Shift(x, m - 1)
  }

  lemma FourBytes(x: nat)
    ensures Shift(x, 4) == 0x1_0000_0000 * x
  {
    assert Shift(x, 2) == 256 * Shift(x, 1);
  }

  lemma {:induction false} FromConcat(a: seq<byte>, b: seq<byte>)
    ensures FromBytes(a + b) == FromBytes(a) + Shift(FromBytes(b), |a|)
  {
    if a == [] {
      assert a + b == b;
    } else {
      assert (a + b)[1..] == a[1..] + b;
      FromConcat(a[1..], b);
    }
  }

  lemma {:induction false} FromBound(a: seq<byte>)
    ensures FromBytes(a) < Shift(1, |a|)
  {
    if a != [] {
      FromBound(a[1..]);
    }
  }

  lemma LowByteOfSum(lo: nat, k: nat)
    ensures (lo + 256 * k) / 256 == lo / 256 + k && LowByte(lo + 256 * k) == LowByte(lo)
  {
    assert (lo + 256 * k) % 256 == lo % 256;
  }

  lemma Quotient(x: nat, p: nat)
    requires x < 256 * p
    ensures x / 256 < p && x == 256 * (x / 256) + x % 256
  {
  }

  /** Numbers that do not overlap: their bytes one after the other. */
  lemma {:induction false} ToConcat(lo: nat, hi: nat, m: nat, count: nat)
    requires lo < Shift(1, m)
    ensures ToBytes(lo + Shift(hi, m), m + count) == ToBytes(lo, m) + ToBytes(hi, count)
  {
    if m != 0 {
      Quotient(lo, Shift(1, m - 1));
      LowByteOfSum(lo, Shift(hi, m - 1));
      ToConcat(lo / 256, hi, m - 1, count);
    }
  }

  lemma {:induction false} RoundTrip(x: nat, count: nat)
    requires x < Shift(1, count)
    ensures FromBytes(ToBytes(x, count)) == x
  {
    if count != 0 {
      Quotient(x, Shift(1, count - 1));
      RoundTrip(x / 256, count - 1);
      assert ToBytes(x, count)[1..] == ToBytes(x / 256, count - 1);
    }
  }
}
