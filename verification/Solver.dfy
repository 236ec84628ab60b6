/**
 The Wagner solver: rows of (hash, indices), one collision round, and what the rows
 are after any number of rounds.
 */
module Solver {
  import opened Arith
  import opened Bits
  import opened Bags
  import opened Equihash
  import opened Wrappers

  datatype Row = Row(hash: seq<byte>, indices: seq<nat>)

  function CbitsOf(n: nat, k: nat): nat {
    n / (k + 1)
  }

  function CbytesOf(cbits: nat): nat {
    (cbits + 7) / 8
  }

  /** Bit `q` of a byte string, counted from the most significant bit of its first byte. */
  predicate BitAt(h: seq<byte>, q: nat) {
    q / 8 < |h| && Bit(h[q / 8], q % 8)
  }

  /** The first `m` bits agree. */
  ghost predicate AgreeBits(a: seq<byte>, b: seq<byte>, m: nat) {
    forall q :: 0 <= q < m ==> (BitAt(a, q) <==> BitAt(b, q))
  }

  /** Whole bytes first, then one masked byte; nothing when that leaves the bounds of a hash. */
  function FirstCbitsEq(a: seq<byte>, b: seq<byte>, cbits: nat): Option<bool> {
    var fullBytes := cbits / 8;
    if |a| < fullBytes || |b| < fullBytes then None
    else if a[..fullBytes] != b[..fullBytes] then Some(false)
    else if cbits % 8 == 0 then Some(true)
    else if |a| == fullBytes || |b| == fullBytes then None
    else Some(SameTop(a[fullBytes], b[fullBytes], cbits % 8))
  }

  /** Comparing whole bytes and one masked byte compares exactly the first `cbits` bits. */
  lemma FirstCbitsAgree(a: seq<byte>, b: seq<byte>, cbits: nat)
    requires |a| >= CbytesOf(cbits) && |b| >= CbytesOf(cbits)
    ensures FirstCbitsEq(a, b, cbits).Some?
    ensures FirstCbitsEq(a, b, cbits).value <==> AgreeBits(a, b, cbits)
  {
    var full, rem := cbits / 8, cbits % 8;
    WholeBytesAgree(a, b, full);
    if rem != 0 {
      SameTopBits(a[full], b[full], rem);
      forall j | 0 <= j < rem
        ensures (Bit(a[full], j) <==> Bit(b[full], j)) <==> (BitAt(a, 8 * full + j) <==> BitAt(b, 8 * full + j))
      {
        assert (8 * full + j) / 8 == full && (8 * full + j) % 8 == j;
      }
      if FirstCbitsEq(a, b, cbits).value {
        forall q | 0 <= q < cbits ensures BitAt(a, q) <==> BitAt(b, q) {
          if q >= 8 * full {
            assert q == 8 * full + (q - 8 * full);
          }
        }
      }
      if AgreeBits(a, b, cbits) {
        forall j | 0 <= j < rem ensures Bit(a[full], j) <==> Bit(b[full], j) {
          assert BitAt(a, 8 * full + j) <==> BitAt(b, 8 * full + j);
        }
      }
    }
  }

  /**
   Hashes of one length: comparing never leaves their bounds when they hold `cbits` bits,
   always does when they lack a whole byte, and otherwise does when they are equal.
   */
  lemma CompareAborts(a: seq<byte>, b: seq<byte>, cbits: nat)
    requires |a| == |b|
    ensures FirstCbitsEq(a, b, cbits).None? <==> |a| < cbits / 8 || (|a| < CbytesOf(cbits) && a == b)
    ensures |a| < CbytesOf(cbits) ==> FirstCbitsEq(a, b, cbits) != Some(true)
  {
    if cbits / 8 <= |a| < CbytesOf(cbits) {
      assert |a| == cbits / 8 && a[..|a|] == a && b[..|b|] == b;
    }
  }

  lemma WholeBytesAgree(a: seq<byte>, b: seq<byte>, full: nat)
    requires |a| >= full && |b| >= full
    ensures a[..full] == b[..full] <==> AgreeBits(a, b, 8 * full)
  {
    if AgreeBits(a, b, 8 * full) {
      forall p | 0 <= p < full ensures a[p] == b[p] {
        forall j | 0 <= j < 8 ensures Bit(a[p], j) <==> Bit(b[p], j) {
          var q := 8 * p + j;
          assert q / 8 == p && q % 8 == j;
          assert BitAt(a, q) <==> BitAt(b, q);
        }
        SameBits(a[p], b[p]);
      }
    } else {
      var q :| 0 <= q < 8 * full && BitAt(a, q) != BitAt(b, q);
      assert a[..full][q / 8] != b[..full][q / 8];
    }
  }

  function Xor(a: seq<byte>, b: seq<byte>): (x: seq<byte>)
    ensures |x| == if |a| <= |b| then |a| else |b|
    ensures forall p :: 0 <= p < |x| ==> x[p] == a[p] ^ b[p]
  {
    var len := if |a| <= |b| then |a| else |b|;
    seq(len, p requires 0 <= p < len => a[p] ^ b[p])
  }

  /** The list with the smaller first index goes first. */
  function ConcatCanonical(a: seq<nat>, b: seq<nat>): seq<nat>
    requires a != [] && b != []
  {
    if a[0] < b[0] then a + b else b + a
  }

  function Combine(a: Row, b: Row, cbits: nat): Row
    requires a.indices != [] && b.indices != []
  {
    var xored := Xor(a.hash, b.hash);
    Row(if |xored| <= CbytesOf(cbits) then [] else xored[CbytesOf(cbits)..],
        ConcatCanonical(a.indices, b.indices))
  }

  // ------------------------------------------------------------------ what a round emits

  /** A row that `Round` can compare without leaving the bounds of its hash or indices. */
  predicate Comparable(a: Row, cbits: nat) {
    |a.hash| >= CbytesOf(cbits) && a.indices != []
  }

  ghost predicate Collides(a: Row, b: Row, cbits: nat) {
    && Comparable(a, cbits) && Comparable(b, cbits)
    && AgreeBits(a.hash, b.hash, cbits)
    && Disjoint(a.indices, b.indices)
  }

  ghost function Emit(a: Row, b: Row, cbits: nat): multiset<Row> {
    if Collides(a, b, cbits) then multiset{Combine(a, b, cbits)} else multiset{}
  }

  ghost function Emission(cbits: nat): (Row, Row) -> multiset<Row> {
    (a, b) => Emit(a, b, cbits)
  }

  lemma EmitSymmetric(a: Row, b: Row, cbits: nat)
    ensures Emit(a, b, cbits) == Emit(b, a, cbits)
  {
    if Collides(a, b, cbits) {
      assert a.indices[0] != b.indices[0];
      assert Xor(a.hash, b.hash) == Xor(b.hash, a.hash);
    }
  }

  lemma EmissionSymmetric(s: seq<Row>, cbits: nat)
    ensures SymmetricOn(s, Emission(cbits))
  {
    forall i, j | 0 <= i < |s| && 0 <= j < |s|
      ensures Emission(cbits)(s[i], s[j]) == Emission(cbits)(s[j], s[i])
    {
      EmitSymmetric(s[i], s[j], cbits);
    }
  }

  // ------------------------------------------------------------------ trees

  /** The first `cbits` bits after byte `off` of the exclusive or are zero. */
  ghost predicate ZeroBlock(leaves: Leaves, idx: seq<nat>, off: nat, cbits: nat) {
    forall q :: 8 * off <= q < 8 * off + cbits ==> !XorBit(leaves, idx, q)
  }

  /** Whole bytes cut off each hash by the first `r` rounds. */
  ghost function Trimmed(cbits: nat, r: nat): nat {
    r * CbytesOf(cbits)
  }

  /** The index trees that survive `r` rounds: halves in order, disjoint, colliding. */
  ghost predicate CodeTree(leaves: Leaves, cbits: nat, idx: seq<nat>, r: nat) {
    && |idx| == Pow2(r)
    && if r == 0 then idx[0] < |leaves| else
         var left, right := idx[..Pow2(r - 1)], idx[Pow2(r - 1)..];
         && CodeTree(leaves, cbits, left, r - 1)
         && CodeTree(leaves, cbits, right, r - 1)
         && left[0] < right[0]
         && Disjoint(left, right)
         && ZeroBlock(leaves, idx, Trimmed(cbits, r - 1), cbits)
  }

  /** What is left of the exclusive or of `idx` after cutting off `off` bytes. */
  ghost function XorFrom(leaves: Leaves, width: nat, off: nat, idx: seq<nat>): seq<byte> {
    seq(if width <= off then 0 else width - off, p requires 0 <= p => XorAt(leaves, idx, off + p))
  }

  /** The row that stands for the tree `idx` after `r` rounds. */
  ghost function TreeRow(leaves: Leaves, width: nat, cbits: nat, r: nat, idx: seq<nat>): Row {
    Row(XorFrom(leaves, width, Trimmed(cbits, r), idx), idx)
  }

  ghost predicate IsTreeRow(leaves: Leaves, width: nat, cbits: nat, r: nat, z: Row) {
    CodeTree(leaves, cbits, z.indices, r) && z == TreeRow(leaves, width, cbits, r, z.indices)
  }

  /** The rows are all index trees of height `r`, each exactly once, with their hashes. */
  ghost predicate ExactRows(leaves: Leaves, width: nat, cbits: nat, r: nat, rows: multiset<Row>) {
    forall z :: rows[z] == if IsTreeRow(leaves, width, cbits, r, z) then 1 else 0
  }

  lemma XorBitAppend(leaves: Leaves, a: seq<nat>, b: seq<nat>, q: nat)
    ensures XorBit(leaves, a + b, q) <==> XorBit(leaves, a, q) != XorBit(leaves, b, q)
  {
    XorAtAppend(leaves, a, b, q / 8);
    BitXor(XorAt(leaves, a, q / 8), XorAt(leaves, b, q / 8), q % 8);
  }

  lemma ZeroBlockIsCollision(leaves: Leaves, width: nat, cbits: nat, off: nat, a: seq<nat>, b: seq<nat>)
    requires off + CbytesOf(cbits) <= width
    ensures AgreeBits(XorFrom(leaves, width, off, a), XorFrom(leaves, width, off, b), cbits)
       <==> ZeroBlock(leaves, a + b, off, cbits)
  {
    var ha, hb := XorFrom(leaves, width, off, a), XorFrom(leaves, width, off, b);
    forall q | 0 <= q < cbits
      ensures (BitAt(ha, q) <==> BitAt(hb, q)) <==> !XorBit(leaves, a + b, 8 * off + q)
    {
      assert (8 * off + q) / 8 == off + q / 8 && (8 * off + q) % 8 == q % 8;
      XorBitAppend(leaves, a, b, 8 * off + q);
    }
    if AgreeBits(ha, hb, cbits) {
      forall q | 8 * off <= q < 8 * off + cbits ensures !XorBit(leaves, a + b, q) {
        var i := q - 8 * off;
        assert BitAt(ha, i) <==> BitAt(hb, i);
      }
    }
    if ZeroBlock(leaves, a + b, off, cbits) {
      forall q | 0 <= q < cbits ensures BitAt(ha, q) <==> BitAt(hb, q) {
        assert !XorBit(leaves, a + b, 8 * off + q);
      }
    }
  }

  lemma XorFromCombined(leaves: Leaves, width: nat, cbits: nat, off: nat, a: seq<nat>, b: seq<nat>)
    requires off + CbytesOf(cbits) <= width
    ensures var xored := Xor(XorFrom(leaves, width, off, a), XorFrom(leaves, width, off, b));
            (if |xored| <= CbytesOf(cbits) then [] else xored[CbytesOf(cbits)..])
            == XorFrom(leaves, width, off + CbytesOf(cbits), a + b)
  {
    forall p: nat ensures XorAt(leaves, a + b, p) == XorAt(leaves, a, p) ^ XorAt(leaves, b, p) {
      XorAtAppend(leaves, a, b, p);
    }
  }

  lemma CodeTreeHalves(leaves: Leaves, cbits: nat, a: seq<nat>, b: seq<nat>, r: nat)
    requires |a| == |b| == Pow2(r)
    ensures CodeTree(leaves, cbits, a + b, r + 1)
       <==> CodeTree(leaves, cbits, a, r) && CodeTree(leaves, cbits, b, r) && a[0] < b[0]
            && Disjoint(a, b) && ZeroBlock(leaves, a + b, Trimmed(cbits, r), cbits)
  {
    assert (a + b)[..Pow2(r)] == a && (a + b)[Pow2(r)..] == b;
  }

  /** Two rows for trees collide exactly when they are the halves of a tree. */
  lemma CollisionIsTree(leaves: Leaves, width: nat, cbits: nat, r: nat, a: Row, b: Row)
    requires Trimmed(cbits, r + 1) <= width
    requires IsTreeRow(leaves, width, cbits, r, a) && IsTreeRow(leaves, width, cbits, r, b)
    requires a.indices[0] < b.indices[0]
    ensures Collides(a, b, cbits) <==> CodeTree(leaves, cbits, a.indices + b.indices, r + 1)
  {
    TrimmedStep(cbits, r);
    CodeTreeHalves(leaves, cbits, a.indices, b.indices, r);
    ZeroBlockIsCollision(leaves, width, cbits, Trimmed(cbits, r), a.indices, b.indices);
  }

  lemma CombinedRow(leaves: Leaves, width: nat, cbits: nat, r: nat, a: seq<nat>, b: seq<nat>)
    requires a != [] && b != [] && a[0] < b[0]
    requires Trimmed(cbits, r + 1) <= width
    ensures Combine(TreeRow(leaves, width, cbits, r, a), TreeRow(leaves, width, cbits, r, b), cbits)
         == TreeRow(leaves, width, cbits, r + 1, a + b)
  {
    TrimmedStep(cbits, r);
    XorFromCombined(leaves, width, cbits, Trimmed(cbits, r), a, b);
  }

  lemma CollisionMakesTree(leaves: Leaves, width: nat, cbits: nat, r: nat, a: Row, b: Row)
    requires Trimmed(cbits, r + 1) <= width
    requires IsTreeRow(leaves, width, cbits, r, a) && IsTreeRow(leaves, width, cbits, r, b)
    requires a.indices[0] < b.indices[0]
    ensures Emit(a, b, cbits) ==
            if CodeTree(leaves, cbits, a.indices + b.indices, r + 1)
            then multiset{TreeRow(leaves, width, cbits, r + 1, a.indices + b.indices)} else multiset{}
  {
    CollisionIsTree(leaves, width, cbits, r, a, b);
    CombinedRow(leaves, width, cbits, r, a.indices, b.indices);
  }

  lemma TrimmedStep(cbits: nat, r: nat)
    ensures Trimmed(cbits, r + 1) == Trimmed(cbits, r) + CbytesOf(cbits)
  {
  }

  /** What two tree rows emit is again a tree row, one level up. */
  lemma EmitMakesTree(leaves: Leaves, width: nat, cbits: nat, r: nat, a: Row, b: Row, z: Row)
    requires Trimmed(cbits, r + 1) <= width
    requires IsTreeRow(leaves, width, cbits, r, a) && IsTreeRow(leaves, width, cbits, r, b)
    requires z in Emit(a, b, cbits)
    ensures IsTreeRow(leaves, width, cbits, r + 1, z)
    ensures z.indices == a.indices + b.indices || z.indices == b.indices + a.indices
  {
    assert a.indices[0] != b.indices[0];
    if a.indices[0] < b.indices[0] {
      CollisionMakesTree(leaves, width, cbits, r, a, b);
    } else {
      EmitSymmetric(a, b, cbits);
      CollisionMakesTree(leaves, width, cbits, r, b, a);
    }
  }

  /** A tree row of height `r + 1` comes from the rows of its two halves and from no others. */
  lemma EmitCount(leaves: Leaves, width: nat, cbits: nat, r: nat, a: Row, b: Row, z: Row, u: Row, v: Row)
    requires Trimmed(cbits, r + 1) <= width
    requires IsTreeRow(leaves, width, cbits, r, a) && IsTreeRow(leaves, width, cbits, r, b)
    requires IsTreeRow(leaves, width, cbits, r, u) && IsTreeRow(leaves, width, cbits, r, v)
    requires IsTreeRow(leaves, width, cbits, r + 1, z)
    requires z.indices == u.indices + v.indices && u.indices[0] < v.indices[0]
    ensures Emit(a, b, cbits)[z] == if IsPair(a, b, u, v) then 1 else 0
  {
    CollisionMakesTree(leaves, width, cbits, r, u, v);
    EmitSymmetric(u, v, cbits);
    if z in Emit(a, b, cbits) {
      EmitMakesTree(leaves, width, cbits, r, a, b, z);
      var h := Pow2(r);
      assert z.indices[..h] == u.indices && z.indices[h..] == v.indices;
      if z.indices == a.indices + b.indices {
        assert z.indices[..h] == a.indices && z.indices[h..] == b.indices;
      } else {
        assert z.indices[..h] == b.indices && z.indices[h..] == a.indices;
      }
    }
  }

  // ------------------------------------------------------------------ hashes that run short

  /** Comparing the two rows leaves the bounds of a hash. */
  predicate CompareFails(a: Row, b: Row, cbits: nat) {
    FirstCbitsEq(a.hash, b.hash, cbits).None?
  }

  /** Some two trees of height `r` cannot be compared. */
  ghost predicate AbortsAt(leaves: Leaves, width: nat, cbits: nat, r: nat) {
    exists x: Row, y: Row :: && x != y && CompareFails(x, y, cbits)
                             && IsTreeRow(leaves, width, cbits, r, x) && IsTreeRow(leaves, width, cbits, r, y)
  }

  lemma TreeHashLength(leaves: Leaves, width: nat, cbits: nat, r: nat, x: Row)
    requires IsTreeRow(leaves, width, cbits, r, x)
    ensures |x.hash| == if width <= Trimmed(cbits, r) then 0 else width - Trimmed(cbits, r)
  {
  }

  lemma EnoughHash(leaves: Leaves, width: nat, cbits: nat, r: nat)
    requires Trimmed(cbits, r + 1) <= width
    ensures !AbortsAt(leaves, width, cbits, r)
  {
    TrimmedStep(cbits, r);
    forall x, y | IsTreeRow(leaves, width, cbits, r, x) && IsTreeRow(leaves, width, cbits, r, y)
      ensures !CompareFails(x, y, cbits)
    {
      CompareAborts(x.hash, y.hash, cbits);
    }
  }

  /** Where at most the compared whole bytes are left, a zero block makes the hashes equal. */
  lemma ZeroBlockSameHash(leaves: Leaves, width: nat, cbits: nat, off: nat, a: seq<nat>, b: seq<nat>)
    requires width <= off + cbits / 8 && ZeroBlock(leaves, a + b, off, cbits)
    ensures XorFrom(leaves, width, off, a) == XorFrom(leaves, width, off, b)
  {
    forall p | off <= p < width ensures XorAt(leaves, a, p) == XorAt(leaves, b, p) {
      forall j | 0 <= j < 8 ensures !Bit(XorAt(leaves, a + b, p), j) {
        var q := 8 * p + j;
        assert q / 8 == p && q % 8 == j;
        assert !XorBit(leaves, a + b, q);
      }
      ZeroByte(XorAt(leaves, a + b, p));
      XorAtAppend(leaves, a, b, p);
      XorEqual(XorAt(leaves, a, p), XorAt(leaves, b, p));
    }
  }

  /** Once hashes run short, trees that can all be compared have no trees above them. */
  lemma ShortHashNoTree(leaves: Leaves, width: nat, cbits: nat, r: nat, idx: seq<nat>)
    requires Trimmed(cbits, r + 1) > width && !AbortsAt(leaves, width, cbits, r)
    ensures !CodeTree(leaves, cbits, idx, r + 1)
  {
    if CodeTree(leaves, cbits, idx, r + 1) {
      var left, right, off := idx[..Pow2(r)], idx[Pow2(r)..], Trimmed(cbits, r);
      var u, v := TreeRow(leaves, width, cbits, r, left), TreeRow(leaves, width, cbits, r, right);
      TrimmedStep(cbits, r);
      assert left + right == idx;
      if |u.hash| >= cbits / 8 {
        ZeroBlockSameHash(leaves, width, cbits, off, left, right);
      }
      CompareAborts(u.hash, v.hash, cbits);
      assert u != v && IsTreeRow(leaves, width, cbits, r, u) && IsTreeRow(leaves, width, cbits, r, v);
    }
  }

  lemma ShortHashNoPair(leaves: Leaves, width: nat, cbits: nat, r: nat, rows: seq<Row>, z: Row)
    requires Trimmed(cbits, r + 1) > width && forall x :: x in rows ==> IsTreeRow(leaves, width, cbits, r, x)
    ensures PairBag(rows, Emission(cbits))[z] == 0
  {
    TrimmedStep(cbits, r);
    forall i, j | 0 <= i < |rows| && 0 <= j < |rows| ensures Emission(cbits)(rows[i], rows[j])[z] == 0 {
      TreeHashLength(leaves, width, cbits, r, rows[i]);
      assert !Comparable(rows[i], cbits);
    }
    PairBagNone(rows, Emission(cbits), z);
  }

  /**
   A round turns all trees of height `r`, each once, into all trees of height `r + 1`,
   each once, if no comparison of two of them leaves the bounds of a hash.
   */
  lemma RoundKeepsExact(leaves: Leaves, width: nat, cbits: nat, r: nat, rows: seq<Row>)
    requires !AbortsAt(leaves, width, cbits, r)
    requires ExactRows(leaves, width, cbits, r, multiset(rows))
    ensures ExactRows(leaves, width, cbits, r + 1, PairBag(rows, Emission(cbits)))
  {
    forall x | x in rows ensures IsTreeRow(leaves, width, cbits, r, x) {
      assert multiset(rows)[x] > 0;
    }
    forall z ensures PairBag(rows, Emission(cbits))[z] == if IsTreeRow(leaves, width, cbits, r + 1, z) then 1 else 0 {
      if Trimmed(cbits, r + 1) > width {
        ShortHashNoTree(leaves, width, cbits, r, z.indices);
        ShortHashNoPair(leaves, width, cbits, r, rows, z);
      } else if IsTreeRow(leaves, width, cbits, r + 1, z) {
        TreeEmittedOnce(leaves, width, cbits, r, rows, z);
      } else {
        OnlyTreesEmitted(leaves, width, cbits, r, rows, z);
      }
    }
  }

  lemma TreeEmittedOnce(leaves: Leaves, width: nat, cbits: nat, r: nat, rows: seq<Row>, z: Row)
    requires Trimmed(cbits, r + 1) <= width
    requires forall x :: x in rows ==> IsTreeRow(leaves, width, cbits, r, x)
    requires ExactRows(leaves, width, cbits, r, multiset(rows))
    requires IsTreeRow(leaves, width, cbits, r + 1, z)
    ensures PairBag(rows, Emission(cbits))[z] == 1
  {
    var left, right := z.indices[..Pow2(r)], z.indices[Pow2(r)..];
    var u := TreeRow(leaves, width, cbits, r, left);
    var v := TreeRow(leaves, width, cbits, r, right);
    assert z.indices == left + right;
    forall x, y | x in rows && y in rows
      ensures Emission(cbits)(x, y)[z] == (if IsPair(x, y, u, v) then 1 else 0)
    {
      EmitCount(leaves, width, cbits, r, x, y, z, u, v);
    }
    assert multiset(rows)[u] == 1 && multiset(rows)[v] == 1;
    PairBagCount(rows, Emission(cbits), z, u, v);
  }

  lemma OnlyTreesEmitted(leaves: Leaves, width: nat, cbits: nat, r: nat, rows: seq<Row>, z: Row)
    requires Trimmed(cbits, r + 1) <= width
    requires forall x :: x in rows ==> IsTreeRow(leaves, width, cbits, r, x)
    requires !IsTreeRow(leaves, width, cbits, r + 1, z)
    ensures PairBag(rows, Emission(cbits))[z] == 0
  {
    forall i, j | 0 <= i < |rows| && 0 <= j < |rows| ensures Emission(cbits)(rows[i], rows[j])[z] == 0 {
      if z in Emit(rows[i], rows[j], cbits) {
        EmitMakesTree(leaves, width, cbits, r, rows[i], rows[j], z);
      }
    }
    PairBagNone(rows, Emission(cbits), z);
  }
}
