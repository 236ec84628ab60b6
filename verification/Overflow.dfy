/**
 Inputs on which a full bucket makes a difference, and one on which it does not.
 */
module Overflow {
  import opened Bags
  import opened Bits
  import opened Buckets
  import opened Equihash
  import opened GpuPipeline
  import opened Search
  import opened ShaderRef
  import opened Wagner
  import opened ZeroLeaves

  // ------------------------------------------------------------------ one bucket

  ghost predicate OneBucket(bs: seq<nat>) {
    forall i :: 0 <= i < |bs| ==> bs[i] == bs[0]
  }

  lemma {:induction false} OneBucketList(bs: seq<nat>, m: nat)
    requires OneBucket(bs) && bs != [] && m <= |bs|
    ensures |BucketList(bs, m, bs[0])| == m
  {
    if m > 0 {
      OneBucketList(bs, m - 1);
    }
  }

  /** In a single bucket the first 16 rows find a slot and no other does. */
  lemma OneBucketKept(bs: seq<nat>, i: nat)
    requires OneBucket(bs) && i < |bs|
    ensures Kept(bs, i) <==> i < 16
  {
    OneBucketList(bs, i);
  }

  // ------------------------------------------------------------------ one round

  /** Rows with a zero hash, row `i` with the one index `index(i)`. */
  ghost function ZeroHashes(count: nat, index: nat -> nat): (rows: seq<RowFixed>)
    ensures |rows| == count
    ensures forall i :: 0 <= i < count ==> rows[i] == RawRow(Hash(0, 0, 0), [index(i)] + Zeros(INDICES_MAX - 1))
  {
    seq(count, i requires 0 <= i => RawRow(Hash(0, 0, 0), [index(i)] + Zeros(INDICES_MAX - 1)))
  }

  lemma ZeroHashBuckets(count: nat, index: nat -> nat, i: nat)
    requires i < count
    ensures OneBucket(RowBuckets(ZeroHashes(count, index)))
    ensures Kept(RowBuckets(ZeroHashes(count, index)), i) <==> i < 16
  {
    OneBucketKept(RowBuckets(ZeroHashes(count, index)), i);
  }

  /** Seventeen rows with zero hashes and different indices: the kernel drops pairs the solver emits. */
  lemma SeventeenRowsLose()
    ensures var rows := ZeroHashes(17, i => i);
            PairBag(Survivors(rows), EmissionFixed(1)) < PairBag(rows, EmissionFixed(1))
  {
    var rows := ZeroHashes(17, i => i);
    ZeroHashBuckets(17, i => i, 16);
    KeptIff(rows, 16);
    assert RowBucket(rows[0]) == RowBucket(rows[16]);
    assert Disjoint(rows[0].indices[..1], rows[16].indices[..1]);
    SurvivorsPart(rows, 1);
  }

  /** Sixteen rows with zero hashes fill a bucket and lose nothing, whatever their indices. */
  lemma SixteenRowsKeep(index: nat -> nat)
    ensures var rows := ZeroHashes(16, index);
            && NoBucketFull(rows)
            && PairBag(Survivors(rows), EmissionFixed(1)) == PairBag(rows, EmissionFixed(1))
  {
    var rows := ZeroHashes(16, index);
    forall p | 0 <= p < |rows| ensures !BucketFull(rows, p) {
      ZeroHashBuckets(16, index, p);
      KeptIff(rows, p);
    }
    SurvivorsPart(rows, 1);
  }

  /** Seventeen rows that all have the same index: the bucket overflows and nothing is lost. */
  lemma SeventeenRowsKeep()
    ensures var rows := ZeroHashes(17, _ => 0);
            && !NoBucketFull(rows)
            && PairBag(Survivors(rows), EmissionFixed(1)) == PairBag(rows, EmissionFixed(1))
  {
    var rows := ZeroHashes(17, _ => 0);
    ZeroHashBuckets(17, _ => 0, 16);
    KeptIff(rows, 16);
    forall i, j | 0 <= i < j < |rows| ensures !Disjoint(rows[i].indices[..1], rows[j].indices[..1]) {
      assert rows[i].indices[..1][0] == rows[j].indices[..1][0];
    }
    SurvivorsPart(rows, 1);
  }

  function ZeroHashRow(index: nat): RowFixed {
    RawRow(Hash(0, 0, 0), [index] + Zeros(INDICES_MAX - 1))
  }

  /** Rows 0 and 1 alone emit the result with the indices 0 and 1. */
  lemma EmitsZeroOne(a: nat, b: nat)
    ensures var z := CombineFixed(ZeroHashRow(0), ZeroHashRow(1), 1);
            EmissionFixed(1)(ZeroHashRow(a), ZeroHashRow(b))[z]
            == if IsPair(ZeroHashRow(a), ZeroHashRow(b), ZeroHashRow(0), ZeroHashRow(1)) then 1 else 0
  {
    var x, y := ZeroHashRow(a), ZeroHashRow(b);
    var z := CombineFixed(ZeroHashRow(0), ZeroHashRow(1), 1);
    assert x.indices[0] == a && y.indices[0] == b && z.indices[0] == 0 && z.indices[1] == 1;
    assert x.indices[..1] == [a] && y.indices[..1] == [b];
    assert ZeroHashRow(0).indices[0] == 0 && ZeroHashRow(1).indices[0] == 1;
    var c := CombineFixed(x, y, 1);
    assert c.indices[0] == (if a < b then a else b) && c.indices[1] == (if a < b then b else a);
  }

  /** Seventeen different rows, whichever of the two orders `index` gives them. */
  lemma ZeroOneEmitted(index: nat -> nat)
    requires forall i, j :: 0 <= i < j < 17 ==> index(i) != index(j)
    ensures var rows := ZeroHashes(17, index);
            PairBag(Survivors(rows), EmissionFixed(1))[CombineFixed(ZeroHashRow(0), ZeroHashRow(1), 1)]
            == if ZeroHashRow(0) in Survivors(rows) && ZeroHashRow(1) in Survivors(rows) then 1 else 0
  {
    var rows := ZeroHashes(17, index);
    forall i, j | 0 <= i < j < |rows| ensures rows[i] != rows[j] {
      assert rows[i].indices[0] == index(i) && rows[j].indices[0] == index(j);
    }
    SurvivorsOnce(rows, ZeroHashRow(0));
    SurvivorsOnce(rows, ZeroHashRow(1));
    forall x, y | x in Survivors(rows) && y in Survivors(rows)
      ensures EmissionFixed(1)(x, y)[CombineFixed(ZeroHashRow(0), ZeroHashRow(1), 1)]
           == if IsPair(x, y, ZeroHashRow(0), ZeroHashRow(1)) then 1 else 0
    {
      var i := SurvivorPlace(rows, x);
      var j := SurvivorPlace(rows, y);
      EmitsZeroOne(index(i), index(j));
    }
    assert ZeroHashRow(0).indices[0] != ZeroHashRow(1).indices[0];
    PairBagCount(Survivors(rows), EmissionFixed(1), CombineFixed(ZeroHashRow(0), ZeroHashRow(1), 1),
                 ZeroHashRow(0), ZeroHashRow(1));
  }

  lemma SurvivorsOnce(rows: seq<RowFixed>, x: RowFixed)
    requires forall i, j :: 0 <= i < j < |rows| ==> rows[i] != rows[j]
    ensures multiset(Survivors(rows))[x] <= 1
  {
    KeptIsPart(rows, RowBuckets(rows), x);
    assert Within(Survivors(rows), rows, x);
    CountDistinct(rows, x);
  }

  lemma SurvivorPlace(rows: seq<RowFixed>, x: RowFixed) returns (i: nat)
    requires x in Survivors(rows)
    ensures i < |rows| && rows[i] == x && Kept(RowBuckets(rows), i)
  {
    KeptMember(rows, RowBuckets(rows), |rows|, x);
    i :| 0 <= i < |rows| && rows[i] == x && Kept(RowBuckets(rows), i);
  }

  /** Of seventeen different rows all but the last survive. */
  lemma SurvivesUnlessLast(index: nat -> nat, p: nat)
    requires forall i, j :: 0 <= i < j < 17 ==> index(i) != index(j)
    requires p < 17
    ensures ZeroHashRow(index(p)) in Survivors(ZeroHashes(17, index)) <==> p < 16
  {
    var rows := ZeroHashes(17, index);
    KeptMember(rows, RowBuckets(rows), 17, ZeroHashRow(index(p)));
    ZeroHashBuckets(17, index, p);
    assert rows[p] == ZeroHashRow(index(p));
    forall q | 0 <= q < 17 && rows[q] == ZeroHashRow(index(p)) ensures q == p {
      assert rows[q].indices[0] == index(q) && ZeroHashRow(index(p)).indices[0] == index(p);
    }
  }

  function Back(i: nat): nat {
    if i <= 16 then 16 - i else i
  }

  function Forth(i: nat): nat {
    i
  }

  /** How often a round over the seventeen rows emits the result with the indices 0 and 1. */
  ghost function ZeroOnes(index: nat -> nat): nat {
    PairBag(Survivors(ZeroHashes(17, index)), EmissionFixed(1))[CombineFixed(ZeroHashRow(0), ZeroHashRow(1), 1)]
  }

  lemma ForthEmits()
    ensures ZeroOnes(Forth) == 1
  {
    ZeroOneEmitted(Forth);
    SurvivesUnlessLast(Forth, 0);
    SurvivesUnlessLast(Forth, 1);
  }

  lemma BackDoesNot()
    ensures ZeroOnes(Back) == 0
  {
    ZeroOneEmitted(Back);
    SurvivesUnlessLast(Back, 16);
  }

  /** The same seventeen rows in the other order give other results: a full bucket makes the order matter. */
  lemma OrderMatters()
    ensures var rows, reversed := ZeroHashes(17, Forth), ZeroHashes(17, Back);
            && (forall i :: 0 <= i < 17 ==> reversed[i] == rows[16 - i])
            && PairBag(Survivors(rows), EmissionFixed(1)) != PairBag(Survivors(reversed), EmissionFixed(1))
  {
    ForthEmits();
    BackDoesNot();
  }

  // ------------------------------------------------------------------ the pipeline

  /** 32 leaves of twelve zero bytes. */
  function ZeroBuffer(): (buffer: seq<byte>)
    ensures |buffer| == 384 && forall i :: 0 <= i < 384 ==> buffer[i] == 0
  {
    seq(384, _ => 0)
  }

  lemma ZeroBufferLeaves()
    ensures LeavesOf(ZeroBuffer(), LEAF_BYTES, 32) == ZeroTable(LEAF_BYTES, 32)
  {
    forall i | 0 <= i < 32 ensures LeavesOf(ZeroBuffer(), LEAF_BYTES, 32)[i] == ZeroTable(LEAF_BYTES, 32)[i] {
      LeafOfBuffer(ZeroBuffer(), LEAF_BYTES, 32, i);
    }
  }

  lemma ZeroLeavesKept(i: nat)
    requires KeptLeaf(ZeroTable(LEAF_BYTES, 32), i)
    ensures i < 16
  {
    var leaves := ZeroTable(LEAF_BYTES, 32);
    forall q | 0 <= q < |leaves| ensures leaves[q] == leaves[i] {
    }
    AllAlike(leaves, leaves[i][..2], i);
  }

  lemma {:induction false} AllAlike(leaves: Leaves, start: seq<byte>, m: nat)
    requires m <= |leaves| && forall q :: 0 <= q < |leaves| ==> |leaves[q]| >= 2 && leaves[q][..2] == start
    ensures |set q | 0 <= q < m && leaves[q][..2] == start| == m
  {
    if m > 0 {
      AllAlike(leaves, start, m - 1);
      assert (set q | 0 <= q < m && leaves[q][..2] == start)
          == (set q | 0 <= q < m - 1 && leaves[q][..2] == start) + {m - 1};
    }
  }

  /** Sixteen leaves are too few for 32 distinct indices. */
  lemma NoSolutionFromKept(y: RowFixed)
    requires HasKeptLeaves(ZeroTable(LEAF_BYTES, 32), y.indices)
    ensures !IsSolutionRow(ZeroTable(LEAF_BYTES, 32), y)
  {
    if IsSolutionRow(ZeroTable(LEAF_BYTES, 32), y) {
      forall t | 0 <= t < |y.indices| ensures y.indices[t] < 16 {
        ZeroLeavesKept(y.indices[t]);
      }
      Pigeonhole(y.indices, 16);
    }
  }

  /** The zero leaves have the solution 0 to 31, and the pipeline returns nothing. */
  method ZeroBufferFindsNothing() returns (solutions: seq<RowFixed>)
    ensures EquihashSolution(LeavesOf(ZeroBuffer(), LEAF_BYTES, 32), 96, 5, Iota(0, 32))
    ensures solutions == []
  {
    PowersOfTwo();
    ZeroBufferLeaves();
    ZeroSolution(LEAF_BYTES, 32, 96, 5);
    solutions := WagnerFull(ZeroBuffer());
    if solutions != [] {
      var y := solutions[0];
      assert multiset(solutions)[y] > 0;
      NoSolutionFromKept(y);
    }
  }
}
