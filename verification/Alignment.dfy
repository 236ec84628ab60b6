/**
 Where the search is complete. The rounds cut whole bytes off the hashes but compare only
 `n / (k + 1)` bits, so for widths that are not whole bytes they demand other bits to be
 zero than the definition does.
 */
module Alignment {
  import opened Arith
  import opened Bits
  import opened Equihash
  import opened Solver
  import opened Search
  import opened ZeroLeaves

  /** On every table with a solution the search does not abort, and finds the solution. */
  ghost predicate FindsAll(n: nat, k: nat) {
    forall leaves, idx :: LeafTable(leaves, n, k) && EquihashSolution(leaves, n, k, idx) ==>
      !SearchAborts(leaves, n, k) && Finds(leaves, n, k, idx)
  }

  /**
   The search misses no solution exactly when its 32-bit shift fits and the width is whole
   bytes or there is one round only, or when a table has too few leaves for any solution.
   */
  lemma FindsAllIff(n: nat, k: nat)
    requires ValidParams(n, k)
    ensures FindsAll(n, k)
       <==> (CbitsOf(n, k) < 31 && (CbitsOf(n, k) % 8 == 0 || k == 1)) || k > CbitsOf(n, k) + 1
  {
    var cbits := CbitsOf(n, k);
    if k > cbits + 1 {
      TooFewLeaves(n, k);
    } else if cbits >= 31 || !SlicesFit(n, k) {
      if k == 1 {
        OneRoundFits(n);
      }
      if cbits % 8 == 0 {
        FindsExactlySolutions([], n, k, []);
      }
      ZeroTableAborts(n, k);
    } else if cbits % 8 == 0 || k == 1 {
      FitsFindsAll(n, k);
    } else {
      EvenRoundsAlign(n, k);
      MissedSolution(n, k);
    }
  }

  lemma TooFewLeaves(n: nat, k: nat)
    requires k > CbitsOf(n, k) + 1
    ensures FindsAll(n, k)
  {
    forall leaves, idx | LeafTable(leaves, n, k) ensures !EquihashSolution(leaves, n, k, idx) {
      if EquihashSolution(leaves, n, k, idx) {
        Pow2Strict(CbitsOf(n, k) + 1, k);
        Pigeonhole(idx, |leaves|);
      }
    }
  }

  lemma FitsFindsAll(n: nat, k: nat)
    requires ValidParams(n, k) && SlicesFit(n, k) && CbitsOf(n, k) < 31
    requires CbitsOf(n, k) % 8 == 0 || k == 1
    ensures FindsAll(n, k)
  {
    forall leaves, idx | LeafTable(leaves, n, k) && EquihashSolution(leaves, n, k, idx)
      ensures !SearchAborts(leaves, n, k) && Finds(leaves, n, k, idx)
    {
      FitsNeverAborts(leaves, n, k);
      if CbitsOf(n, k) % 8 == 0 {
        FindsExactlySolutions(leaves, n, k, idx);
      } else {
        OneRoundFinds(leaves, n, idx);
      }
    }
  }

  lemma OneRoundFits(n: nat)
    requires ValidParams(n, 1)
    ensures SlicesFit(n, 1)
  {
    WholeWidth(n, 1);
    assert Trimmed(CbitsOf(n, 1), 1) == CbytesOf(CbitsOf(n, 1));
  }

  /** Where the shift overflows or hashes run short, zero leaves have a solution and the search panics. */
  lemma ZeroTableAborts(n: nat, k: nat)
    requires ValidParams(n, k) && k <= CbitsOf(n, k) + 1
    requires CbitsOf(n, k) >= 31 || !SlicesFit(n, k)
    ensures !FindsAll(n, k)
  {
    var count := Pow2(CbitsOf(n, k) + 1);
    var leaves := ZeroTable(n / 8, count);
    Pow2Monotone(k, CbitsOf(n, k) + 1);
    ZeroSolution(n / 8, count, n, k);
    if !SlicesFit(n, k) {
      var r := FirstShortRound(n / 8, CbitsOf(n, k), k);
      Pow2Monotone(r + 1, k);
      ZeroRowsAbort(n / 8, count, CbitsOf(n, k), r);
    }
    assert SearchAborts(leaves, n, k);
  }

  /** The first round before which the hashes do not hold the compared bits. */
  lemma FirstShortRound(width: nat, cbits: nat, k: nat) returns (r: nat)
    requires Trimmed(cbits, k) > width
    ensures r < k && Trimmed(cbits, r) <= width < Trimmed(cbits, r + 1)
  {
    r := 0;
    assert Trimmed(cbits, 0) == 0;
    while Trimmed(cbits, r + 1) <= width
      invariant r < k && Trimmed(cbits, r) <= width
      decreases k - r
    {
      r := r + 1;
    }
  }

  lemma ZeroRowsAbort(width: nat, count: nat, cbits: nat, r: nat)
    requires Pow2(r + 1) <= count && Trimmed(cbits, r) <= width < Trimmed(cbits, r + 1)
    ensures AbortsAt(ZeroTable(width, count), width, cbits, r)
  {
    var h := Pow2(r);
    assert Pow2(r + 1) == 2 * h;
    ZeroCodeTree(width, count, cbits, 0, r);
    ZeroCodeTree(width, count, cbits, h, r);
    assert Iota(0, h)[0] != Iota(h, h)[0];
    TwoTreesAbort(width, count, cbits, r, Iota(0, h), Iota(h, h));
  }

  /** Two trees over zero leaves have equal hashes, and cannot be compared once these run short. */
  lemma TwoTreesAbort(width: nat, count: nat, cbits: nat, r: nat, a: seq<nat>, b: seq<nat>)
    requires Trimmed(cbits, r) <= width < Trimmed(cbits, r + 1) && a != b
    requires CodeTree(ZeroTable(width, count), cbits, a, r) && CodeTree(ZeroTable(width, count), cbits, b, r)
    ensures AbortsAt(ZeroTable(width, count), width, cbits, r)
  {
    var leaves := ZeroTable(width, count);
    var x, y := TreeRow(leaves, width, cbits, r, a), TreeRow(leaves, width, cbits, r, b);
    TrimmedStep(cbits, r);
    forall p: nat ensures XorAt(leaves, a, p) == XorAt(leaves, b, p) {
      ZeroXor(width, count, a, p);
      ZeroXor(width, count, b, p);
    }
    assert x.hash == y.hash && x.indices != y.indices;
    CompareAborts(x.hash, y.hash, cbits);
    assert x != y && CompareFails(x, y, cbits);
    assert IsTreeRow(leaves, width, cbits, r, x) && IsTreeRow(leaves, width, cbits, r, y);
  }

  lemma {:induction false} ZeroCodeTree(width: nat, count: nat, cbits: nat, start: nat, r: nat)
    requires start + Pow2(r) <= count
    ensures CodeTree(ZeroTable(width, count), cbits, Iota(start, Pow2(r)), r)
    decreases r
  {
    if r == 0 {
      assert Pow2(0) == 1;
    } else {
      var h := Pow2(r - 1);
      ZeroCodeTree(width, count, cbits, start, r - 1);
      ZeroCodeTree(width, count, cbits, start + h, r - 1);
      IotaHalves(start, h);
      ZeroJoin(width, count, cbits, Iota(start, h), Iota(start + h, h), r - 1);
    }
  }

  /** Zero trees side by side make a zero tree. */
  lemma ZeroJoin(width: nat, count: nat, cbits: nat, a: seq<nat>, b: seq<nat>, r: nat)
    requires |a| == |b| == Pow2(r) && a[0] < b[0] && Disjoint(a, b)
    requires CodeTree(ZeroTable(width, count), cbits, a, r) && CodeTree(ZeroTable(width, count), cbits, b, r)
    ensures CodeTree(ZeroTable(width, count), cbits, a + b, r + 1)
  {
    ZeroBlockOfZeros(width, count, a + b, Trimmed(cbits, r), cbits);
    CodeTreeHalves(ZeroTable(width, count), cbits, a, b, r);
  }

  lemma ZeroBlockOfZeros(width: nat, count: nat, idx: seq<nat>, off: nat, cbits: nat)
    ensures ZeroBlock(ZeroTable(width, count), idx, off, cbits)
  {
    forall q | 8 * off <= q < 8 * off + cbits ensures !XorBit(ZeroTable(width, count), idx, q) {
      NoBits(width, count, idx, q);
    }
  }

  // ------------------------------------------------------------------ panics

  /** No table makes the search panic. */
  ghost predicate NeverPanics(n: nat, k: nat) {
    forall leaves :: LeafTable(leaves, n, k) ==> !SearchAborts(leaves, n, k)
  }

  /**
   No table makes the search panic exactly when the shift fits and the hashes hold the
   compared bits of all rounds, or of those rounds in which two different trees can exist.
   */
  lemma NeverPanicsIff(n: nat, k: nat)
    requires ValidParams(n, k)
    ensures NeverPanics(n, k)
       <==> CbitsOf(n, k) < 31 && (SlicesFit(n, k) || Trimmed(CbitsOf(n, k), CbitsOf(n, k) + 2) <= n / 8)
  {
    var cbits := CbitsOf(n, k);
    var zeros := ZeroTable(n / 8, Pow2(cbits + 1));
    assert LeafTable(zeros, n, k);
    if cbits < 31 && (SlicesFit(n, k) || Trimmed(cbits, cbits + 2) <= n / 8) {
      forall leaves | LeafTable(leaves, n, k) ensures !SearchAborts(leaves, n, k) {
        if SlicesFit(n, k) {
          FitsNeverAborts(leaves, n, k);
        } else {
          LateRoundsEmpty(leaves, n, k);
        }
      }
    } else if cbits < 31 {
      ZeroTablePanics(n, k);
      assert SearchAborts(zeros, n, k);
    }
  }

  /** Trees of more than `cbits + 1` levels need more leaves than there are. */
  lemma LateRoundsEmpty(leaves: Leaves, n: nat, k: nat)
    requires LeafTable(leaves, n, k) && Trimmed(CbitsOf(n, k), CbitsOf(n, k) + 2) <= n / 8
    ensures !TableAborts(leaves, n, k)
  {
    var cbits := CbitsOf(n, k);
    forall r | 0 <= r < k ensures !AbortsAt(leaves, n / 8, cbits, r) {
      if r < cbits + 2 {
        TrimmedMonotone(cbits, r + 1, cbits + 2);
        EnoughHash(leaves, n / 8, cbits, r);
      } else {
        forall x ensures !IsTreeRow(leaves, n / 8, cbits, r, x) {
          if IsTreeRow(leaves, n / 8, cbits, r, x) {
            TreeShape(leaves, cbits, x.indices, r);
            Pow2Strict(cbits + 1, r);
            Pigeonhole(x.indices, |leaves|);
          }
        }
      }
    }
  }

  /** Otherwise the zero leaves make a round panic. */
  lemma ZeroTablePanics(n: nat, k: nat)
    requires ValidParams(n, k) && !SlicesFit(n, k) && Trimmed(CbitsOf(n, k), CbitsOf(n, k) + 2) > n / 8
    ensures TableAborts(ZeroTable(n / 8, Pow2(CbitsOf(n, k) + 1)), n, k)
  {
    var cbits := CbitsOf(n, k);
    var r := FirstShortRound(n / 8, cbits, if k < cbits + 2 then k else cbits + 2);
    PositiveWidth(n, k);
    if r <= cbits {
      Pow2Monotone(r + 1, cbits + 1);
      ZeroRowsAbort(n / 8, Pow2(cbits + 1), cbits, r);
    } else {
      FullTreesAbort(n / 8, cbits, r);
    }
  }

  lemma PositiveWidth(n: nat, k: nat)
    requires ValidParams(n, k)
    ensures CbitsOf(n, k) >= 1
  {
    WholeWidth(n, k);
  }

  /** All leaves make two trees, with the middle quarters in either order. */
  lemma FullTreesAbort(width: nat, cbits: nat, r: nat)
    requires r == cbits + 1 && r >= 2 && Trimmed(cbits, r) <= width < Trimmed(cbits, r + 1)
    ensures AbortsAt(ZeroTable(width, Pow2(r)), width, cbits, r)
  {
    var h := Pow2(r - 2);
    FourQuarters(r - 2, r, h);
    ZeroCodeTree(width, Pow2(r), cbits, 0, r);
    SwappedTree(width, Pow2(r), cbits, h, r - 2, r);
    SwappedDiffers(h);
    TwoTreesAbort(width, Pow2(r), cbits, r, Iota(0, 4 * h), Swapped(h));
  }

  lemma FourQuarters(r: nat, top: nat, h: nat)
    requires top == r + 2 && h == Pow2(r)
    ensures Pow2(r + 1) == 2 * h && Pow2(top) == 4 * h
  {
  }

  ghost function Swapped(h: nat): seq<nat> {
    (Iota(0, h) + Iota(2 * h, h)) + (Iota(h, h) + Iota(3 * h, h))
  }

  lemma SwappedDiffers(h: nat)
    requires h > 0
    ensures Swapped(h) != Iota(0, 4 * h)
  {
    assert Swapped(h)[h] == 2 * h && Iota(0, 4 * h)[h] == h;
  }

  lemma SwappedHalves(h: nat)
    requires h > 0
    ensures var a, b := Iota(0, h) + Iota(2 * h, h), Iota(h, h) + Iota(3 * h, h);
            Disjoint(a, b) && a[0] < b[0]
  {
  }

  lemma SwappedTree(width: nat, count: nat, cbits: nat, h: nat, r: nat, top: nat)
    requires top == r + 2 && h == Pow2(r) && count == 4 * h
    ensures CodeTree(ZeroTable(width, count), cbits, Swapped(h), top)
  {
    FourQuarters(r, top, h);
    ApartTree(width, count, cbits, 0, 2 * h, h, r);
    ApartTree(width, count, cbits, h, 3 * h, h, r);
    SwappedHalves(h);
    ZeroJoin(width, count, cbits, Iota(0, h) + Iota(2 * h, h), Iota(h, h) + Iota(3 * h, h), r + 1);
  }

  /** Two runs of leaves, one behind the other, as the halves of a tree. */
  lemma ApartTree(width: nat, count: nat, cbits: nat, start: nat, next: nat, h: nat, r: nat)
    requires h == Pow2(r) && start + h <= next && next + h <= count
    ensures CodeTree(ZeroTable(width, count), cbits, Iota(start, h) + Iota(next, h), r + 1)
  {
    ZeroCodeTree(width, count, cbits, start, r);
    ZeroCodeTree(width, count, cbits, next, r);
    ZeroJoin(width, count, cbits, Iota(start, h), Iota(next, h), r);
  }

  /** Equihash (8, 7) misses no solution, as no table has one, and panics on four zero leaves. */
  lemma FindsAllAndPanics()
    ensures ValidParams(8, 7) && FindsAll(8, 7) && !NeverPanics(8, 7)
    ensures LeafTable(ZeroTable(1, 4), 8, 7) && SearchAborts(ZeroTable(1, 4), 8, 7)
  {
    assert CbitsOf(8, 7) == 1 && Pow2(2) == 4;
    FindsAllIff(8, 7);
    NeverPanicsIff(8, 7);
    ZeroTablePanics(8, 7);
  }

  /** Equihash (56, 3): 14-bit collisions, found in steps of two bytes. */
  lemma Missed56()
    ensures !FindsAll(56, 3)
  {
    assert ValidParams(56, 3) && CbitsOf(56, 3) == 14;
    FindsAllIff(56, 3);
  }

  lemma OneRoundFinds(leaves: Leaves, n: nat, idx: seq<nat>)
    requires ValidParams(n, 1) && EquihashSolution(leaves, n, 1, idx)
    ensures Finds(leaves, n, 1, idx)
  {
    var cbits := CbitsOf(n, 1);
    SpecTreeIsFlat(leaves, cbits, idx, 1);
    assert Trimmed(cbits, 0) == 0;
    assert idx == idx[..Pow2(0)] + idx[Pow2(0)..];
  }

  /** With an even number of rounds `n / (k + 1)` keeps the factor 8 of `n`. */
  lemma EvenRoundsAlign(n: nat, k: nat)
    requires ValidParams(n, k) && CbitsOf(n, k) % 8 != 0
    ensures k != 2
  {
    if k == 2 {
      WholeWidth(n, 2);
    }
  }

  // ------------------------------------------------------------------ a missed solution

  /** Leaves 0 and 4 have the single bit `p` set; all others are zero. */
  ghost function TwoBitLeaves(width: nat, count: nat, p: nat): (leaves: Leaves)
    ensures |leaves| == count && forall i :: 0 <= i < count ==> |leaves[i]| == width
  {
    seq(count, i requires 0 <= i =>
      seq(width, b requires 0 <= b => if b == p / 8 && (i == 0 || i == 4) then BitMask(p % 8) else 0))
  }

  ghost predicate Covers(start: nat, len: nat, i: nat) {
    start <= i < start + len
  }

  lemma LeafBit(width: nat, count: nat, p: nat, i: nat, q: nat)
    requires p < 8 * width && i < count
    ensures XorBit(TwoBitLeaves(width, count, p), [i], q) <==> q == p && (i == 0 || i == 4)
  {
    var leaves := TwoBitLeaves(width, count, p);
    assert XorFold(leaves, [i][1..], q / 8) == 0;
    XorZero(LeafByte(leaves, i, q / 8));
    SetBit(0, p % 8, q % 8);
    OrZero(BitMask(p % 8));
  }

  lemma OrZero(b: byte)
    ensures 0 | b == b && forall j :: 0 <= j < 8 ==> !Bit(0, j)
  {
  }

  lemma {:induction false} IotaBit(width: nat, count: nat, p: nat, start: nat, len: nat, q: nat)
    requires p < 8 * width && start + len <= count
    ensures XorBit(TwoBitLeaves(width, count, p), Iota(start, len), q)
       <==> q == p && Covers(start, len, 0) != Covers(start, len, 4)
  {
    var leaves := TwoBitLeaves(width, count, p);
    if len == 0 {
      OrZero(0);
    } else {
      assert Iota(start, len) == Iota(start, len - 1) + [start + len - 1];
      IotaBit(width, count, p, start, len - 1, q);
      LeafBit(width, count, p, start + len - 1, q);
      XorBitAppend(leaves, Iota(start, len - 1), [start + len - 1], q);
    }
  }

  /** Over a run of indices only bit `p` can be set, when the run covers one of 0 and 4. */
  ghost predicate OnlyBit(leaves: Leaves, p: nat) {
    forall start: nat, len: nat, q: nat :: start + len <= |leaves| ==>
      (XorBit(leaves, Iota(start, len), q) <==> q == p && Covers(start, len, 0) != Covers(start, len, 4))
  }

  lemma TwoBitsOnly(width: nat, count: nat, p: nat)
    requires p < 8 * width
    ensures OnlyBit(TwoBitLeaves(width, count, p), p)
  {
    forall start: nat, len: nat, q: nat | start + len <= count
      ensures XorBit(TwoBitLeaves(width, count, p), Iota(start, len), q)
         <==> q == p && Covers(start, len, 0) != Covers(start, len, 4)
    {
      IotaBit(width, count, p, start, len, q);
    }
  }

  /** Runs of `2^r` indices are trees: up to height 2 the set bit comes too late to matter,
      above that a run covers both or neither of the leaves that have it. */
  lemma {:induction false} IotaTree(leaves: Leaves, p: nat, cbits: nat, start: nat, r: nat)
    requires OnlyBit(leaves, p)
    requires 2 * cbits <= p && start + Pow2(r) <= |leaves|
    requires r >= 3 ==> start % 8 == 0
    ensures SpecTree(leaves, cbits, Iota(start, Pow2(r)), r)
    decreases r
  {
    if r != 0 {
      var h := Pow2(r - 1);
      HalfRun(start, r, h);
      IotaTree(leaves, p, cbits, start, r - 1);
      IotaTree(leaves, p, cbits, start + h, r - 1);
      IotaRoot(leaves, p, cbits, start, h, r);
      IotaHalves(start, h);
      JoinTrees(leaves, cbits, Iota(start, h), Iota(start + h, h), r);
    } else {
      assert Pow2(0) == 1;
    }
  }

  lemma HalfRun(start: nat, r: nat, h: nat)
    requires r >= 1 && h == Pow2(r - 1) && (r >= 3 ==> start % 8 == 0)
    ensures Pow2(r) == 2 * h && h > 0
    ensures r - 1 >= 3 ==> start % 8 == 0 && (start + h) % 8 == 0
  {
    if r >= 4 {
      Pow2Eighth(r - 1);
      SumEighth(start, h);
    }
  }

  lemma SumEighth(a: nat, b: nat)
    requires a % 8 == 0 && b % 8 == 0
    ensures (a + b) % 8 == 0
  {
    assert a + b == 8 * (a / 8 + b / 8);
  }

  lemma IotaRoot(leaves: Leaves, p: nat, cbits: nat, start: nat, h: nat, r: nat)
    requires OnlyBit(leaves, p) && r >= 1 && Pow2(r) == 2 * h && h > 0
    requires 2 * cbits <= p && start + 2 * h <= |leaves|
    requires r >= 3 ==> start % 8 == 0
    ensures RootOk(leaves, cbits, Iota(start, h), Iota(start + h, h), r)
  {
    IotaHalves(start, h);
    IotaZero(leaves, p, cbits, start, r);
  }

  lemma IotaZero(leaves: Leaves, p: nat, cbits: nat, start: nat, r: nat)
    requires OnlyBit(leaves, p)
    requires 2 * cbits <= p && start + Pow2(r) <= |leaves|
    requires r >= 3 ==> start % 8 == 0
    ensures ZeroBits(leaves, Iota(start, Pow2(r)), r * cbits)
  {
    if r >= 3 {
      Pow2Eighth(r);
    } else if r == 2 {
      assert r * cbits == 2 * cbits;
    } else if r == 1 {
      assert r * cbits == cbits;
    }
  }

  lemma {:induction false} Pow2Eighth(r: nat)
    requires r >= 3
    ensures Pow2(r) % 8 == 0 && Pow2(r) >= 8
  {
    if r == 3 {
      assert Pow2(3) == 8 by {
        assert Pow2(0) == 1 && Pow2(1) == 2 && Pow2(2) == 4;
      }
    } else {
      Pow2Eighth(r - 1);
      var p := Pow2(r - 1);
      assert Pow2(r) == 2 * p && p == 8 * (p / 8);
    }
  }

  /** Wherever the table is large enough and the width is not whole bytes, a solution can be missed. */
  lemma MissedSolution(n: nat, k: nat)
    requires ValidParams(n, k)
    requires CbitsOf(n, k) % 8 != 0 && 3 <= k <= CbitsOf(n, k) + 1
    ensures !FindsAll(n, k)
  {
    if !SlicesFit(n, k) {
      ZeroTableAborts(n, k);
    } else {
      var p := FirstExtraBit(n, k);
      TwoBitsMissed(n, k, p);
    }
  }

  lemma TwoBitsMissed(n: nat, k: nat, p: nat)
    requires 3 <= k <= CbitsOf(n, k) + 1 && 2 * CbitsOf(n, k) <= p < 8 * (n / 8)
    requires 8 * CbytesOf(CbitsOf(n, k)) <= p < 8 * CbytesOf(CbitsOf(n, k)) + CbitsOf(n, k)
    ensures !FindsAll(n, k)
  {
    var count := Pow2(CbitsOf(n, k) + 1);
    TwoBitsOnly(n / 8, count, p);
    Pow2Monotone(k, CbitsOf(n, k) + 1);
    RunMissed(TwoBitLeaves(n / 8, count, p), n, k, p);
  }

  /** A bit that the second round demands to be zero and the definition does not. */
  lemma FirstExtraBit(n: nat, k: nat) returns (p: nat)
    requires ValidParams(n, k) && SlicesFit(n, k)
    requires CbitsOf(n, k) % 8 != 0 && k >= 3
    ensures 2 * CbitsOf(n, k) <= p < n
    ensures 8 * CbytesOf(CbitsOf(n, k)) <= p < 8 * CbytesOf(CbitsOf(n, k)) + CbitsOf(n, k)
  {
    BitFits(n, k);
    RoundedUp(CbitsOf(n, k));
    p := PickBit(CbitsOf(n, k), 8 * CbytesOf(CbitsOf(n, k)), n);
  }

  lemma RoundedUp(cbits: nat)
    requires cbits % 8 != 0
    ensures cbits < 8 * CbytesOf(cbits)
  {
  }

  lemma PickBit(cbits: nat, trimmed: nat, n: nat) returns (p: nat)
    requires 0 < cbits < trimmed < n && 2 * cbits < n
    ensures 2 * cbits <= p < n && trimmed <= p < trimmed + cbits
  {
    p := if 2 * cbits >= trimmed then 2 * cbits else trimmed;
  }

  lemma RunMissed(leaves: Leaves, n: nat, k: nat, p: nat)
    requires LeafTable(leaves, n, k) && OnlyBit(leaves, p) && k >= 3 && Pow2(k) <= |leaves|
    requires 2 * CbitsOf(n, k) <= p
    requires 8 * CbytesOf(CbitsOf(n, k)) <= p < 8 * CbytesOf(CbitsOf(n, k)) + CbitsOf(n, k)
    ensures !FindsAll(n, k)
  {
    var idx := Iota(0, Pow2(k));
    Pow2Eighth(k);
    IotaTree(leaves, p, CbitsOf(n, k), 0, k);
    SpecTreeIsFlat(leaves, CbitsOf(n, k), idx, k);
    assert EquihashSolution(leaves, n, k, idx);
    assert idx[..4] == Iota(0, 4);
    assert XorBit(leaves, idx[..4], p);
    NotFound(leaves, n, k, idx, p);
  }

  /** The second round demands zeros in a block of bits of the first four leaves. */
  lemma NotFound(leaves: Leaves, n: nat, k: nat, idx: seq<nat>, p: nat)
    requires k >= 2 && |idx| >= 4 && XorBit(leaves, idx[..4], p)
    requires 8 * CbytesOf(CbitsOf(n, k)) <= p < 8 * CbytesOf(CbitsOf(n, k)) + CbitsOf(n, k)
    ensures !Finds(leaves, n, k, idx)
  {
    var cbits := CbitsOf(n, k);
    assert Pow2(0) == 1 && Pow2(1) == 2 && Pow2(2) == 4;
    assert Trimmed(cbits, 0) == 0;
    TrimmedStep(cbits, 0);
    assert !CodeTree(leaves, cbits, idx[..4], 2) by {
      var quad := idx[..4];
      assert quad == quad[..2] + quad[2..];
      assert !ZeroBlock(leaves, quad, Trimmed(cbits, 1), cbits);
    }
    if CodeTree(leaves, cbits, idx, k) {
      TreePrefix(leaves, cbits, idx, 2, k);
    }
  }

  lemma BitFits(n: nat, k: nat)
    requires ValidParams(n, k) && SlicesFit(n, k) && k >= 3
    ensures 2 * CbitsOf(n, k) < n && 8 * CbytesOf(CbitsOf(n, k)) < n && CbitsOf(n, k) > 0
  {
    var cbits := CbitsOf(n, k);
    WholeWidth(n, k);
    NextMultiple(2, k, cbits);
    NextMultiple(2, k, CbytesOf(cbits));
  }
}
