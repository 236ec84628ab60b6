/**
 The collision round as the solver runs it: sort by hash, cut into groups with equal
 first bits, and emit every index-disjoint pair of a group.
 */
module Rounds {
  import opened Bits
  import opened Bags
  import opened Equihash
  import opened Solver
  import opened Wrappers

  // ------------------------------------------------------------------ sorting by hash

  /** The order of byte strings: lexicographic, a proper prefix first. */
  predicate LexLe(a: seq<byte>, b: seq<byte>) {
    if a == [] then true
    else if b == [] then false
    else if a[0] != b[0] then a[0] < b[0]
    else LexLe(a[1..], b[1..])
  }

  /** The first byte that differs decides; without one the shorter string comes first. */
  lemma {:induction false} LexMeans(a: seq<byte>, b: seq<byte>)
    ensures LexLe(a, b) <==> a <= b || exists p :: FirstLess(a, b, p)
  {
    if a != [] && b != [] {
      if a[0] == b[0] {
        LexMeans(a[1..], b[1..]);
        if p: nat :| FirstLess(a[1..], b[1..], p) {
          assert FirstLess(a, b, p + 1);
        }
        if p: nat :| FirstLess(a, b, p) {
          assert p != 0;
          assert a[..p][1..] == a[1..][..p - 1] && b[..p][1..] == b[1..][..p - 1];
          assert FirstLess(a[1..], b[1..], p - 1);
        }
        assert a <= b <==> a[1..] <= b[1..];
      } else if a[0] < b[0] {
        assert FirstLess(a, b, 0);
      } else {
        forall p: nat ensures !FirstLess(a, b, p) {
          if 0 < p <= |a| && p <= |b| {
            assert a[..p][0] == a[0] && b[..p][0] == b[0];
          }
        }
      }
    }
  }

  /** The strings agree before place `p` and the byte of `a` there is the smaller. */
  ghost predicate FirstLess(a: seq<byte>, b: seq<byte>, p: nat) {
    p < |a| && p < |b| && a[..p] == b[..p] && a[p] as nat < b[p] as nat
  }

  lemma {:induction false} LexTotal(a: seq<byte>, b: seq<byte>)
    ensures LexLe(a, b) || LexLe(b, a)
  {
    if a != [] && b != [] && a[0] == b[0] {
      LexTotal(a[1..], b[1..]);
    }
  }

  lemma {:induction false} LexTransitive(a: seq<byte>, b: seq<byte>, c: seq<byte>)
    requires LexLe(a, b) && LexLe(b, c)
    ensures LexLe(a, c)
  {
    if a != [] && a[0] == b[0] == c[0] {
      LexTransitive(a[1..], b[1..], c[1..]);
    }
  }

  /** Strings between two that agree in their first bits agree with them. */
  lemma {:induction false} LexConvex(a: seq<byte>, b: seq<byte>, c: seq<byte>, cbits: nat)
    requires |a| >= CbytesOf(cbits) && |b| >= CbytesOf(cbits) && |c| >= CbytesOf(cbits)
    requires LexLe(a, b) && LexLe(b, c)
    requires AgreeBits(a, c, cbits)
    ensures AgreeBits(a, b, cbits)
    decreases cbits
  {
    if cbits >= 8 {
      FirstByte(a, c, cbits);
      LexConvex(a[1..], b[1..], c[1..], cbits - 8);
      FirstByte(a, b, cbits);
    } else if cbits > 0 {
      FirstCbitsAgree(a, c, cbits);
      FirstCbitsAgree(a, b, cbits);
      TopMaskConvex(a[0], b[0], c[0], cbits);
    }
  }

  lemma FirstByte(a: seq<byte>, b: seq<byte>, cbits: nat)
    requires cbits >= 8 && |a| >= CbytesOf(cbits) && |b| >= CbytesOf(cbits)
    ensures AgreeBits(a, b, cbits) <==> a[0] == b[0] && AgreeBits(a[1..], b[1..], cbits - 8)
  {
    WholeBytesAgree(a, b, 1);
    assert a[..1] == [a[0]] && b[..1] == [b[0]];
    forall q | 8 <= q < cbits
      ensures BitAt(a, q) == BitAt(a[1..], q - 8) && BitAt(b, q) == BitAt(b[1..], q - 8)
    {
      assert (q - 8) / 8 == q / 8 - 1 && (q - 8) % 8 == q % 8;
    }
    if AgreeBits(a, b, cbits) {
      forall q | 0 <= q < cbits - 8 ensures BitAt(a[1..], q) <==> BitAt(b[1..], q) {
        var q' := q + 8;
        assert BitAt(a, q') <==> BitAt(b, q');
      }
    }
  }

  ghost predicate SortedByHash(s: seq<Row>) {
    forall i, j :: 0 <= i <= j < |s| ==> LexLe(s[i].hash, s[j].hash)
  }

  /** A sort by hash; rows with equal hashes may come in any order. */
  method SortByHash(rows: seq<Row>) returns (sorted: seq<Row>)
    ensures multiset(sorted) == multiset(rows)
    ensures SortedByHash(sorted)
  {
    sorted := [];
    for n := 0 to |rows|
      invariant multiset(sorted) == multiset(rows[..n])
      invariant SortedByHash(sorted)
    {
      var at := |sorted|;
      while at > 0 && !LexLe(sorted[at - 1].hash, rows[n].hash)
        invariant 0 <= at <= |sorted|
        invariant forall i :: at <= i < |sorted| ==> LexLe(rows[n].hash, sorted[i].hash)
      {
        LexTotal(rows[n].hash, sorted[at - 1].hash);
        at := at - 1;
      }
      InsertSorted(sorted, at, rows[n]);
      assert rows[..n + 1] == rows[..n] + [rows[n]];
      sorted := sorted[..at] + [rows[n]] + sorted[at..];
    }
    assert rows[..|rows|] == rows;
  }

  lemma InsertSorted(s: seq<Row>, at: nat, x: Row)
    requires SortedByHash(s) && at <= |s|
    requires at == 0 || LexLe(s[at - 1].hash, x.hash)
    requires forall i :: at <= i < |s| ==> LexLe(x.hash, s[i].hash)
    ensures SortedByHash(s[..at] + [x] + s[at..])
    ensures multiset(s[..at] + [x] + s[at..]) == multiset(s) + multiset{x}
  {
    assert s == s[..at] + s[at..];
    forall i | 0 <= i < at ensures LexLe(s[i].hash, x.hash) {
      LexTransitive(s[i].hash, s[at - 1].hash, x.hash);
    }
    LexTotal(x.hash, x.hash);
  }

  // ------------------------------------------------------------------ one round

  method DistinctIndices(a: seq<nat>, b: seq<nat>) returns (distinct: bool)
    ensures distinct == Disjoint(a, b)
  {
    for i := 0 to |a|
      invariant forall i', j :: 0 <= i' < i && 0 <= j < |b| ==> a[i'] != b[j]
    {
      for j := 0 to |b|
        invariant forall j' :: 0 <= j' < j ==> a[i] != b[j']
      {
        if a[i] == b[j] {
          return false;
        }
      }
    }
    return true;
  }

  /** What all rows of one round have in common: a hash length, and indices. */
  ghost predicate Uniform(s: seq<Row>, width: nat) {
    forall i :: 0 <= i < |s| ==> |s[i].hash| == width && s[i].indices != []
  }

  /** Some two rows, at different places, cannot be compared. */
  ghost predicate RoundAborts(s: seq<Row>, cbits: nat) {
    exists x: Row, y: Row :: CompareFails(x, y, cbits) && multiset{x, y} <= multiset(s)
  }

  /** No row before `i` collides with a row from `i` on. */
  ghost predicate Separated(s: seq<Row>, i: nat, cbits: nat)
    requires i <= |s|
  {
    forall p, q :: 0 <= p < i <= q < |s| ==> !Collides(s[p], s[q], cbits)
  }

  /** Every row before `i` can be compared with every row behind it. */
  ghost predicate Compared(s: seq<Row>, i: nat, cbits: nat)
    requires i <= |s|
  {
    forall p, q :: 0 <= p < i && p < q < |s| ==> !CompareFails(s[p], s[q], cbits)
  }

  /** Rows `i` to `j` compare equal to row `i`; row `j` compares different. */
  ghost predicate IsGroup(s: seq<Row>, i: nat, j: nat, cbits: nat) {
    && i < j <= |s|
    && (forall q :: i < q < j ==> FirstCbitsEq(s[i].hash, s[q].hash, cbits) == Some(true))
    && (j < |s| ==> FirstCbitsEq(s[i].hash, s[j].hash, cbits) == Some(false))
  }

  method GroupEnd(s: seq<Row>, i: nat, cbits: nat) returns (j: Outcome<nat>)
    requires i < |s|
    ensures j.Finished? ==> IsGroup(s, i, j.value, cbits)
    ensures j.Aborted? ==> exists q :: i < q < |s| && CompareFails(s[i], s[q], cbits)
  {
    var q := i + 1;
    while q < |s|
      invariant i < q <= |s|
      invariant forall q' :: i < q' < q ==> FirstCbitsEq(s[i].hash, s[q'].hash, cbits) == Some(true)
    {
      var same := FirstCbitsEq(s[i].hash, s[q].hash, cbits);
      if same.None? {
        assert CompareFails(s[i], s[q], cbits);
        return Aborted;
      }
      if !same.value {
        break;
      }
      q := q + 1;
    }
    return Finished(q);
  }

  /** With enough hash bytes a group agrees in its first bits, and the next row does not. */
  lemma LongGroup(s: seq<Row>, width: nat, i: nat, j: nat, cbits: nat)
    requires Uniform(s, width) && width >= CbytesOf(cbits) && IsGroup(s, i, j, cbits)
    ensures forall q :: i <= q < j ==> AgreeBits(s[i].hash, s[q].hash, cbits)
    ensures j < |s| ==> !AgreeBits(s[i].hash, s[j].hash, cbits)
  {
    forall q | i < q < |s|
      ensures FirstCbitsEq(s[i].hash, s[q].hash, cbits) == Some(true) <==> AgreeBits(s[i].hash, s[q].hash, cbits)
    {
      FirstCbitsAgree(s[i].hash, s[q].hash, cbits);
    }
  }

  /** With too few hash bytes a group is one row. */
  lemma ShortGroup(s: seq<Row>, width: nat, i: nat, j: nat, cbits: nat)
    requires Uniform(s, width) && width < CbytesOf(cbits) && IsGroup(s, i, j, cbits)
    ensures j == i + 1
  {
    if j > i + 1 {
      CompareAborts(s[i].hash, s[i + 1].hash, cbits);
    }
  }

  lemma GroupSeparated(s: seq<Row>, width: nat, i: nat, j: nat, cbits: nat)
    requires Uniform(s, width) && SortedByHash(s) && IsGroup(s, i, j, cbits) && Separated(s, i, cbits)
    ensures Separated(s, j, cbits)
  {
    if width >= CbytesOf(cbits) {
      LongGroup(s, width, i, j, cbits);
    }
    forall p, q | 0 <= p < j <= q < |s| ensures !Collides(s[p], s[q], cbits) {
      if i <= p && Collides(s[p], s[q], cbits) {
        LexConvex(s[i].hash, s[j].hash, s[q].hash, cbits);
      }
    }
  }

  /** Equal hashes are neighbours after the sort, so a group that did not abort leaves none behind. */
  lemma GroupCompared(s: seq<Row>, width: nat, i: nat, j: nat, cbits: nat)
    requires Uniform(s, width) && SortedByHash(s) && IsGroup(s, i, j, cbits) && Compared(s, i, cbits)
    ensures Compared(s, j, cbits)
  {
    forall p, q | 0 <= p < j && p < q < |s| ensures !CompareFails(s[p], s[q], cbits) {
      CompareAborts(s[p].hash, s[q].hash, cbits);
      if i <= p && width < CbytesOf(cbits) {
        ShortGroup(s, width, i, j, cbits);
        CompareAborts(s[i].hash, s[j].hash, cbits);
        if s[i].hash == s[q].hash {
          LexAntisymmetric(s[i].hash, s[j].hash);
        }
      }
    }
  }

  lemma {:induction false} LexAntisymmetric(a: seq<byte>, b: seq<byte>)
    requires LexLe(a, b) && LexLe(b, a)
    ensures a == b
  {
    if a != [] {
      LexAntisymmetric(a[1..], b[1..]);
      assert a == [a[0]] + a[1..] && b == [b[0]] + b[1..];
    }
  }

  lemma GroupAdded(s: seq<Row>, i: nat, j: nat, cbits: nat)
    requires i <= j <= |s| && Separated(s, i, cbits)
    ensures PairBag(s[..j], Emission(cbits)) == PairBag(s[..i], Emission(cbits)) + PairBag(s[i..j], Emission(cbits))
  {
    assert s[..j] == s[..i] + s[i..j];
    PairBagAppend(s[..i], s[i..j], Emission(cbits));
    CrossNothing(s[..i], s[i..j], Emission(cbits));
  }

  /** Whether the pair is emitted depends on its indices alone. */
  ghost predicate EmitsIfDisjoint(a: Row, b: Row, cbits: nat, e: (Row, Row) -> multiset<Row>) {
    && a.indices != [] && b.indices != []
    && e(a, b) == if Disjoint(a.indices, b.indices) then multiset{Combine(a, b, cbits)} else multiset{}
  }

  ghost predicate GroupEmission(s: seq<Row>, i: nat, j: nat, cbits: nat, e: (Row, Row) -> multiset<Row>)
    requires j <= |s|
  {
    forall p, q {:trigger EmitsIfDisjoint(s[p], s[q], cbits, e)} ::
      i <= p < q < j ==> EmitsIfDisjoint(s[p], s[q], cbits, e)
  }

  lemma GroupEmits(s: seq<Row>, width: nat, i: nat, j: nat, cbits: nat)
    requires Uniform(s, width) && IsGroup(s, i, j, cbits)
    ensures GroupEmission(s, i, j, cbits, Emission(cbits))
  {
    if width >= CbytesOf(cbits) {
      LongGroup(s, width, i, j, cbits);
    } else {
      ShortGroup(s, width, i, j, cbits);
    }
  }

  /** Pairs row `ia` with the later rows of its group. */
  method PairRow(s: seq<Row>, ghost i: nat, ia: nat, j: nat, cbits: nat, ghost e: (Row, Row) -> multiset<Row>)
    returns (out: seq<Row>)
    requires i <= ia < j <= |s| && GroupEmission(s, i, j, cbits, e)
    ensures multiset(out) == PairsWith(s[ia], s[ia + 1..j], e)
  {
    out := [];
    for ib := ia + 1 to j
      invariant multiset(out) == PairsWith(s[ia], s[ia + 1..ib], e)
    {
      assert EmitsIfDisjoint(s[ia], s[ib], cbits, e);
      var distinct := DistinctIndices(s[ia].indices, s[ib].indices);
      PairsWithLast(s, ia, ia + 1, ib, e);
      if distinct {
        out := out + [Combine(s[ia], s[ib], cbits)];
      }
    }
  }

  /** Emits the pairs of one group. */
  method PairGroup(s: seq<Row>, i: nat, j: nat, cbits: nat, ghost e: (Row, Row) -> multiset<Row>)
    returns (out: seq<Row>)
    requires i <= j <= |s| && GroupEmission(s, i, j, cbits, e)
    ensures multiset(out) == PairBag(s[i..j], e)
  {
    out := [];
    for ia := i to j
      invariant multiset(out) + PairBag(s[ia..j], e) == PairBag(s[i..j], e)
    {
      var emitted := PairRow(s, i, ia, j, cbits, e);
      PairBagFirst(s, ia, j, e);
      out := out + emitted;
    }
  }

  /**
   For any order the sort leaves ties in, the round emits every pair of rows that agree
   in their first `cbits` bits and share no index, each pair once, and nothing else. It
   aborts exactly when two of the rows cannot be compared.
   */
  method Round(rows: seq<Row>, cbits: nat, ghost width: nat) returns (out: Outcome<seq<Row>>)
    requires Uniform(rows, width)
    ensures out.Aborted? <==> RoundAborts(rows, cbits)
    ensures out.Finished? ==> multiset(out.value) == PairBag(rows, Emission(cbits))
  {
    var sorted := SortByHash(rows);
    PermutationKeeps(rows, sorted, width, cbits);
    var emitted: seq<Row> := [];
    var i := 0;
    while i < |sorted|
      invariant 0 <= i <= |sorted|
      invariant Separated(sorted, i, cbits) && Compared(sorted, i, cbits)
      invariant multiset(emitted) == PairBag(sorted[..i], Emission(cbits))
    {
      var j := GroupEnd(sorted, i, cbits);
      if j.Aborted? {
        ghost var q :| i < q < |sorted| && CompareFails(sorted[i], sorted[q], cbits);
        PairInBag(sorted, i, q);
        return Aborted;
      }
      GroupEmits(sorted, width, i, j.value, cbits);
      var pairs := PairGroup(sorted, i, j.value, cbits, Emission(cbits));
      GroupAdded(sorted, i, j.value, cbits);
      GroupSeparated(sorted, width, i, j.value, cbits);
      GroupCompared(sorted, width, i, j.value, cbits);
      emitted := emitted + pairs;
      i := j.value;
    }
    assert sorted[..i] == sorted;
    NoFailure(sorted, cbits);
    return Finished(emitted);
  }

  /** Rows at two places are two members of the bag. */
  lemma PairInBag(s: seq<Row>, i: nat, j: nat)
    requires i < j < |s|
    ensures multiset{s[i], s[j]} <= multiset(s)
  {
    assert s == s[..i] + [s[i]] + s[i + 1..j] + [s[j]] + s[j + 1..];
  }

  lemma PlacesOfPair(s: seq<Row>, x: Row, y: Row) returns (i: nat, j: nat)
    requires multiset{x, y} <= multiset(s)
    ensures i < |s| && j < |s| && i != j && s[i] == x && s[j] == y
  {
    assert x in multiset(s);
    i :| i < |s| && s[i] == x;
    var rest := s[..i] + s[i + 1..];
    WithoutAt(s, i, rest);
    assert multiset(rest)[y] >= 1;
    var k :| 0 <= k < |rest| && rest[k] == y;
    j := if k < i then k else k + 1;
  }

  lemma WithoutAt<T>(s: seq<T>, i: nat, rest: seq<T>)
    requires i < |s| && rest == s[..i] + s[i + 1..]
    ensures multiset(s) == multiset(rest) + multiset{s[i]}
  {
    assert s == s[..i] + [s[i]] + s[i + 1..];
  }

  lemma NoFailure(s: seq<Row>, cbits: nat)
    requires Compared(s, |s|, cbits)
    ensures !RoundAborts(s, cbits)
  {
    forall x, y | multiset{x, y} <= multiset(s) ensures !CompareFails(x, y, cbits) {
      var i, j := PlacesOfPair(s, x, y);
      FailsSymmetric(x, y, cbits);
    }
  }

  lemma FailsSymmetric(x: Row, y: Row, cbits: nat)
    ensures CompareFails(x, y, cbits) <==> CompareFails(y, x, cbits)
  {
  }

  lemma PermutationKeeps(rows: seq<Row>, sorted: seq<Row>, width: nat, cbits: nat)
    requires multiset(sorted) == multiset(rows) && Uniform(rows, width)
    ensures PairBag(rows, Emission(cbits)) == PairBag(sorted, Emission(cbits))
    ensures Uniform(sorted, width)
    ensures RoundAborts(rows, cbits) <==> RoundAborts(sorted, cbits)
  {
    EmissionSymmetric(rows, cbits);
    PairBagPermutation(rows, sorted, Emission(cbits));
    forall i | 0 <= i < |sorted| ensures |sorted[i].hash| == width && sorted[i].indices != [] {
      var i' := IndexOf(rows, sorted[i], sorted);
    }
  }
}
