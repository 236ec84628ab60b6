/**
 The search for a solution: `k` rounds from the leaves, the zero filter, packing and the
 final check. `Finds` says which index lists come out, for every accepted `(n, k)`; for
 byte-aligned collision widths these are exactly the Equihash solutions.
 */
module Search {
  import opened Arith
  import opened Bits
  import opened Wrappers
  import opened Equihash
  import opened BitPacking
  import opened Solver
  import opened Rounds

  predicate ValidParams(n: nat, k: nat) {
    n != 0 && k != 0 && n % 8 == 0 && n % (k + 1) == 0 && k < n
  }

  /** Every round finds enough hash bytes to compare. */
  ghost predicate SlicesFit(n: nat, k: nat) {
    Trimmed(CbitsOf(n, k), k) <= n / 8
  }

  ghost predicate LeafTable(leaves: Leaves, n: nat, k: nat) {
    |leaves| == Pow2(CbitsOf(n, k) + 1) && forall i :: 0 <= i < |leaves| ==> |leaves[i]| == n / 8
  }

  /** The index lists that reach the final check. */
  ghost predicate Finds(leaves: Leaves, n: nat, k: nat, idx: seq<nat>) {
    && CodeTree(leaves, CbitsOf(n, k), idx, k)
    && forall q :: 8 * Trimmed(CbitsOf(n, k), k) <= q < n ==> !XorBit(leaves, idx, q)
  }

  /** The byte strings the Equihash verifier accepts: packed solutions. */
  ghost predicate IsValidSolution(leaves: Leaves, n: nat, k: nat, bytes: seq<byte>) {
    exists idx :: EquihashSolution(leaves, n, k, idx) && IsPacked(bytes, idx, CbitsOf(n, k) + 1)
  }

  // ------------------------------------------------------------------ the first rows

  function InitialRows(leaves: Leaves): seq<Row> {
    seq(|leaves|, i requires 0 <= i < |leaves| => Row(leaves[i], [i]))
  }

  lemma {:induction false} CountDistinct<T>(s: seq<T>, z: T)
    requires forall i, j :: 0 <= i < j < |s| ==> s[i] != s[j]
    ensures multiset(s)[z] == if z in s then 1 else 0
  {
    if s != [] {
      assert s == s[..|s| - 1] + [s[|s| - 1]];
      CountDistinct(s[..|s| - 1], z);
    }
  }

  lemma InitialExact(leaves: Leaves, width: nat, cbits: nat)
    requires forall i :: 0 <= i < |leaves| ==> |leaves[i]| == width
    ensures ExactRows(leaves, width, cbits, 0, multiset(InitialRows(leaves)))
  {
    var rows := InitialRows(leaves);
    assert Trimmed(cbits, 0) == 0 && Pow2(0) == 1;
    forall i | 0 <= i < |leaves| ensures rows[i] == TreeRow(leaves, width, cbits, 0, [i]) {
      forall p | 0 <= p < width ensures XorAt(leaves, [i], p) == leaves[i][p] {
        assert XorFold(leaves, [i][1..], p) == 0;
        XorZero(leaves[i][p]);
      }
    }
    forall z ensures multiset(rows)[z] == if IsTreeRow(leaves, width, cbits, 0, z) then 1 else 0 {
      forall i, j | 0 <= i < j < |rows| ensures rows[i] != rows[j] {
        assert rows[i].indices[0] == i && rows[j].indices[0] == j;
      }
      CountDistinct(rows, z);
      if IsTreeRow(leaves, width, cbits, 0, z) {
        var i := z.indices[0];
        assert z.indices == [i];
        assert rows[i] == z;
      }
    }
  }

  // ------------------------------------------------------------------ trees

  lemma {:induction false} TreeInRange(leaves: Leaves, cbits: nat, idx: seq<nat>, r: nat)
    requires CodeTree(leaves, cbits, idx, r)
    ensures forall i :: 0 <= i < |idx| ==> idx[i] < |leaves|
  {
    if r != 0 {
      var h := Pow2(r - 1);
      TreeInRange(leaves, cbits, idx[..h], r - 1);
      TreeInRange(leaves, cbits, idx[h..], r - 1);
      assert forall i :: h <= i < |idx| ==> idx[i] == idx[h..][i - h];
      assert forall i :: 0 <= i < h ==> idx[i] == idx[..h][i];
    }
  }

  /** A tree of height `k` starts with a tree of every smaller height. */
  lemma {:induction false} TreePrefix(leaves: Leaves, cbits: nat, idx: seq<nat>, r: nat, k: nat)
    requires r <= k && CodeTree(leaves, cbits, idx, k)
    ensures Pow2(r) <= |idx| && CodeTree(leaves, cbits, idx[..Pow2(r)], r)
  {
    if r < k {
      TreePrefix(leaves, cbits, idx[..Pow2(k - 1)], r, k - 1);
      assert idx[..Pow2(k - 1)][..Pow2(r)] == idx[..Pow2(r)];
    } else {
      assert idx[..Pow2(r)] == idx;
    }
  }

  /** Some round compares two trees beyond the end of their hashes. */
  ghost predicate TableAborts(leaves: Leaves, n: nat, k: nat) {
    exists r :: 0 <= r < k && AbortsAt(leaves, n / 8, CbitsOf(n, k), r)
  }

  /** A search panics: the 32-bit shift overflows, or a comparison leaves a hash. */
  ghost predicate SearchAborts(leaves: Leaves, n: nat, k: nat) {
    CbitsOf(n, k) >= 31 || TableAborts(leaves, n, k)
  }

  /** Parameters whose hashes suffice for all rounds never abort a round. */
  lemma FitsNeverAborts(leaves: Leaves, n: nat, k: nat)
    requires SlicesFit(n, k)
    ensures !TableAborts(leaves, n, k)
  {
    var cbits := CbitsOf(n, k);
    forall r | 0 <= r < k ensures !AbortsAt(leaves, n / 8, cbits, r) {
      TrimmedMonotone(cbits, r + 1, k);
      EnoughHash(leaves, n / 8, cbits, r);
    }
  }

  lemma ExactRowsUniform(leaves: Leaves, width: nat, cbits: nat, r: nat, rows: seq<Row>)
    requires ExactRows(leaves, width, cbits, r, multiset(rows))
    ensures Uniform(rows, if width <= Trimmed(cbits, r) then 0 else width - Trimmed(cbits, r))
  {
    forall i | 0 <= i < |rows| ensures IsTreeRow(leaves, width, cbits, r, rows[i]) {
      assert multiset(rows)[rows[i]] > 0;
    }
  }

  /** Over exact rows a round aborts exactly when some two trees cannot be compared. */
  lemma ExactRowsAbort(leaves: Leaves, width: nat, cbits: nat, r: nat, rows: seq<Row>)
    requires ExactRows(leaves, width, cbits, r, multiset(rows))
    ensures RoundAborts(rows, cbits) <==> AbortsAt(leaves, width, cbits, r)
  {
    forall x: Row, y: Row
      ensures multiset{x, y} <= multiset(rows)
         <==> x != y && IsTreeRow(leaves, width, cbits, r, x) && IsTreeRow(leaves, width, cbits, r, y)
    {
      TwoOfBag(multiset(rows), x, y);
    }
  }

  lemma TwoOfBag(s: multiset<Row>, x: Row, y: Row)
    requires s[x] <= 1 && s[y] <= 1
    ensures multiset{x, y} <= s <==> x != y && s[x] == 1 && s[y] == 1
  {
    if multiset{x, y} <= s {
      assert multiset{x, y}[x] <= s[x] && multiset{x, y}[y] <= s[y];
    }
  }

  lemma TrimmedMonotone(cbits: nat, r: nat, k: nat)
    requires r <= k
    ensures Trimmed(cbits, r) <= Trimmed(cbits, k)
  {
    if r < k {
      TrimmedMonotone(cbits, r, k - 1);
      TrimmedStep(cbits, k - 1);
    }
  }

  // ------------------------------------------------------------------ aligned widths

  /** With whole-byte widths the tree conditions of the code and of the definition agree. */
  lemma {:induction false} AlignedTrees(leaves: Leaves, cbits: nat, idx: seq<nat>, r: nat)
    requires cbits % 8 == 0
    ensures CodeTree(leaves, cbits, idx, r) <==> SpecTree(leaves, cbits, idx, r)
  {
    if |idx| == Pow2(r) && r != 0 {
      var left, right := idx[..Pow2(r - 1)], idx[Pow2(r - 1)..];
      assert idx == left + right;
      AlignedTrees(leaves, cbits, left, r - 1);
      AlignedTrees(leaves, cbits, right, r - 1);
      AlignedTrimmed(cbits, r - 1);
      Distribute(r - 1, 1, cbits);
      if SpecTree(leaves, cbits, left, r - 1) && SpecTree(leaves, cbits, right, r - 1) {
        SpecTreeZero(leaves, cbits, left, r - 1);
        SpecTreeZero(leaves, cbits, right, r - 1);
        ZeroBitsAppend(leaves, left, right, (r - 1) * cbits);
        assert ZeroBits(leaves, idx, r * cbits)
          <==> ZeroBits(leaves, idx, (r - 1) * cbits) && ZeroBlock(leaves, idx, Trimmed(cbits, r - 1), cbits);
      }
    }
  }

  lemma {:induction false} AlignedTrimmed(cbits: nat, r: nat)
    requires cbits % 8 == 0
    ensures 8 * Trimmed(cbits, r) == r * cbits
  {
    assert cbits == 8 * CbytesOf(cbits);
    if r != 0 {
      AlignedTrimmed(cbits, r - 1);
      TrimmedStep(cbits, r - 1);
      Distribute(r - 1, 1, cbits);
    }
  }

  lemma SpecTreeZero(leaves: Leaves, cbits: nat, idx: seq<nat>, r: nat)
    requires SpecTree(leaves, cbits, idx, r)
    ensures ZeroBits(leaves, idx, r * cbits)
  {
    if r != 0 {
      assert idx == idx[..Pow2(r - 1)] + idx[Pow2(r - 1)..];
    }
  }

  lemma ZeroBitsAppend(leaves: Leaves, a: seq<nat>, b: seq<nat>, m: nat)
    requires ZeroBits(leaves, a, m) && ZeroBits(leaves, b, m)
    ensures ZeroBits(leaves, a + b, m)
  {
    forall q | 0 <= q < m ensures !XorBit(leaves, a + b, q) {
      XorBitAppend(leaves, a, b, q);
    }
  }

  /** Whatever survives `r` rounds: 2^r distinct leaves, the least one first. */
  lemma {:induction false} TreeShape(leaves: Leaves, cbits: nat, idx: seq<nat>, r: nat)
    requires CodeTree(leaves, cbits, idx, r)
    ensures |idx| == Pow2(r) && Distinct(idx)
    ensures forall i :: 0 <= i < |idx| ==> idx[0] <= idx[i] < |leaves|
  {
    if r != 0 {
      var left, right := idx[..Pow2(r - 1)], idx[Pow2(r - 1)..];
      assert idx == left + right;
      TreeShape(leaves, cbits, left, r - 1);
      TreeShape(leaves, cbits, right, r - 1);
      DistinctHalves(left, right);
      forall i | 0 <= i < |idx| ensures idx[0] <= idx[i] < |leaves| {
        if i < |left| {
          assert idx[i] == left[i];
        } else {
          assert idx[i] == right[i - |left|];
        }
      }
    }
  }

  /** For byte-aligned widths the bytes cut off a surviving row are zero in its exclusive or. */
  lemma TrimmedIsZero(leaves: Leaves, cbits: nat, idx: seq<nat>, r: nat, p: nat)
    requires cbits % 8 == 0 && CodeTree(leaves, cbits, idx, r) && p < Trimmed(cbits, r)
    ensures XorAt(leaves, idx, p) == 0
  {
    AlignedTrees(leaves, cbits, idx, r);
    SpecTreeZero(leaves, cbits, idx, r);
    AlignedTrimmed(cbits, r);
    forall j | 0 <= j < 8 ensures !Bit(XorAt(leaves, idx, p), j) {
      var q := 8 * p + j;
      assert q / 8 == p && q % 8 == j;
      assert !XorBit(leaves, idx, q);
    }
    ZeroByte(XorAt(leaves, idx, p));
  }

  /** For byte-aligned widths the search finds exactly the Equihash solutions. */
  lemma FindsExactlySolutions(leaves: Leaves, n: nat, k: nat, idx: seq<nat>)
    requires ValidParams(n, k) && CbitsOf(n, k) % 8 == 0
    ensures SlicesFit(n, k)
    ensures Finds(leaves, n, k, idx) <==> EquihashSolution(leaves, n, k, idx)
  {
    var cbits := CbitsOf(n, k);
    AlignedTrimmed(cbits, k);
    WholeWidth(n, k);
    AlignedTrees(leaves, cbits, idx, k);
    SpecTreeIsFlat(leaves, cbits, idx, k);
    if SpecTree(leaves, cbits, idx, k) {
      SpecTreeZero(leaves, cbits, idx, k);
    }
  }

  lemma WholeWidth(n: nat, k: nat)
    requires ValidParams(n, k)
    ensures n == k * CbitsOf(n, k) + CbitsOf(n, k)
  {
    assert n == (k + 1) * (n / (k + 1));
    Distribute(k, 1, CbitsOf(n, k));
  }

  // ------------------------------------------------------------------ the search

  predicate AllZero(hash: seq<byte>) {
    forall p :: 0 <= p < |hash| ==> hash[p] == 0
  }

  lemma ZeroFilter(leaves: Leaves, n: nat, k: nat, z: Row)
    requires n % 8 == 0 && IsTreeRow(leaves, n / 8, CbitsOf(n, k), k, z)
    ensures AllZero(z.hash) <==> Finds(leaves, n, k, z.indices)
  {
    var off := Trimmed(CbitsOf(n, k), k);
    if AllZero(z.hash) {
      forall q | 8 * off <= q < n ensures !XorBit(leaves, z.indices, q) {
        assert z.hash[q / 8 - off] == 0;
        ZeroByte(XorAt(leaves, z.indices, q / 8));
      }
    }
    if Finds(leaves, n, k, z.indices) {
      forall p | 0 <= p < |z.hash| ensures z.hash[p] == 0 {
        var b := XorAt(leaves, z.indices, off + p);
        forall j | 0 <= j < 8 ensures !Bit(b, j) {
          var q := 8 * (off + p) + j;
          assert q / 8 == off + p && q % 8 == j;
          assert !XorBit(leaves, z.indices, q);
        }
        ZeroByte(b);
      }
    }
  }

  /** Packing loses nothing, so the verifier's answer is about the list that was packed. */
  lemma PackedIsValid(leaves: Leaves, n: nat, k: nat, idx: seq<nat>, bytes: seq<byte>)
    requires LeafTable(leaves, n, k)
    requires CodeTree(leaves, CbitsOf(n, k), idx, k)
    requires IsPacked(bytes, idx, CbitsOf(n, k) + 1)
    ensures IsValidSolution(leaves, n, k, bytes) <==> EquihashSolution(leaves, n, k, idx)
  {
    var bitsPer := CbitsOf(n, k) + 1;
    TreeInRange(leaves, CbitsOf(n, k), idx, k);
    if IsValidSolution(leaves, n, k, bytes) {
      var idx' :| EquihashSolution(leaves, n, k, idx') && IsPacked(bytes, idx', bitsPer);
      UnpackPacked(bytes, idx, bitsPer);
      UnpackPacked(bytes, idx', bitsPer);
    }
  }

  method NextRows(ghost leaves: Leaves, ghost width: nat, cbits: nat, ghost r: nat, rows: seq<Row>)
    returns (next: Outcome<seq<Row>>)
    requires ExactRows(leaves, width, cbits, r, multiset(rows))
    ensures next.Aborted? <==> AbortsAt(leaves, width, cbits, r)
    ensures next.Finished? ==> ExactRows(leaves, width, cbits, r + 1, multiset(next.value))
  {
    ExactRowsUniform(leaves, width, cbits, r, rows);
    ExactRowsAbort(leaves, width, cbits, r, rows);
    next := Round(rows, cbits, if width <= Trimmed(cbits, r) then 0 else width - Trimmed(cbits, r));
    if next.Finished? {
      RoundKeepsExact(leaves, width, cbits, r, rows);
    }
  }

  /** The rounds: after them the rows are all trees of height `k`, or no such tree exists. */
  method RunRounds(ghost leaves: Leaves, n: nat, k: nat, initial: seq<Row>) returns (out: Outcome<seq<Row>>)
    requires ExactRows(leaves, n / 8, CbitsOf(n, k), 0, multiset(initial))
    ensures out.Aborted? <==> TableAborts(leaves, n, k)
    ensures out.Finished? ==> ExactRows(leaves, n / 8, CbitsOf(n, k), k, multiset(out.value))
  {
    var cbits := CbitsOf(n, k);
    var rows := initial;
    for r := 0 to k
      invariant ExactRows(leaves, n / 8, cbits, r, multiset(rows))
      invariant forall q :: 0 <= q < r ==> !AbortsAt(leaves, n / 8, cbits, q)
    {
      var next := NextRows(leaves, n / 8, cbits, r, rows);
      if next.Aborted? {
        return Aborted;
      }
      rows := next.value;
      if rows == [] {
        NoTrees(leaves, n / 8, cbits, r + 1, k);
        forall q | r < q < k ensures !AbortsAt(leaves, n / 8, cbits, q) {
          NoTreesNoAbort(leaves, n / 8, cbits, r + 1, q);
        }
        return Finished(rows);
      }
    }
    return Finished(rows);
  }

  lemma NoTreesNoAbort(leaves: Leaves, width: nat, cbits: nat, r: nat, q: nat)
    requires r <= q && ExactRows(leaves, width, cbits, r, multiset{})
    ensures !AbortsAt(leaves, width, cbits, q)
  {
    NoTrees(leaves, width, cbits, r, q);
    forall x ensures !IsTreeRow(leaves, width, cbits, q, x) {
      assert multiset{}[x] == 0;
    }
  }

  lemma NoTrees(leaves: Leaves, width: nat, cbits: nat, r: nat, k: nat)
    requires r <= k && ExactRows(leaves, width, cbits, r, multiset{})
    ensures ExactRows(leaves, width, cbits, k, multiset{})
  {
    forall z ensures !IsTreeRow(leaves, width, cbits, k, z) {
      if IsTreeRow(leaves, width, cbits, k, z) {
        TreePrefix(leaves, cbits, z.indices, r, k);
        var sub := z.indices[..Pow2(r)];
        assert IsTreeRow(leaves, width, cbits, r, TreeRow(leaves, width, cbits, r, sub));
      }
    }
  }

  /** What a search may answer: a packed solution it finds, or nothing when it finds none. */
  ghost predicate IsAnswer(leaves: Leaves, n: nat, k: nat, r: Option<seq<byte>>) {
    match r
    case Some(bytes) =>
      exists idx :: Finds(leaves, n, k, idx) && EquihashSolution(leaves, n, k, idx)
                    && IsPacked(bytes, idx, CbitsOf(n, k) + 1)
    case None =>
      forall idx :: Finds(leaves, n, k, idx) ==> !EquihashSolution(leaves, n, k, idx)
  }

  /** What a search over a table may do: abort exactly when it must, or answer. */
  ghost predicate Searched(leaves: Leaves, n: nat, k: nat, out: Outcome<Option<seq<byte>>>) {
    && (out.Aborted? <==> SearchAborts(leaves, n, k))
    && (out.Finished? ==> IsAnswer(leaves, n, k, out.value))
  }

  /**
   Runs the rounds and returns the first packed candidate that passes the final check
   `isValid`, the Equihash verifier.
   */
  method SearchLeaves(leaves: Leaves, n: nat, k: nat, isValid: seq<byte> -> bool)
    returns (out: Outcome<Option<seq<byte>>>)
    requires n % 8 == 0 && CbitsOf(n, k) < 31 && LeafTable(leaves, n, k)
    requires forall bytes :: isValid(bytes) <==> IsValidSolution(leaves, n, k, bytes)
    ensures Searched(leaves, n, k, out)
  {
    InitialExact(leaves, n / 8, CbitsOf(n, k));
    var ran := RunRounds(leaves, n, k, InitialRows(leaves));
    if ran.Aborted? {
      return Aborted;
    }
    var rows := ran.value;
    for i := 0 to |rows|
      invariant forall j :: 0 <= j < i ==>
        !(Finds(leaves, n, k, rows[j].indices) && EquihashSolution(leaves, n, k, rows[j].indices))
    {
      assert multiset(rows)[rows[i]] > 0;
      ZeroFilter(leaves, n, k, rows[i]);
      if |rows[i].indices| == Pow2(k) && AllZero(rows[i].hash) {
        var compressed := CompressIndices(CbitsOf(n, k) + 1, rows[i].indices);
        PackedIsValid(leaves, n, k, rows[i].indices, compressed);
        if isValid(compressed) {
          return Finished(Some(compressed));
        }
      }
    }
    forall idx | Finds(leaves, n, k, idx) ensures !EquihashSolution(leaves, n, k, idx) {
      var z := TreeRow(leaves, n / 8, CbitsOf(n, k), k, idx);
      assert IsTreeRow(leaves, n / 8, CbitsOf(n, k), k, z);
      assert multiset(rows)[z] == 1;
      assert z in rows;
    }
    return Finished(None);
  }

  // ------------------------------------------------------------------ callers

  /** For byte-aligned widths an answer is a solution whenever there is one. */
  lemma AlignedAnswer(leaves: Leaves, n: nat, k: nat, r: Option<seq<byte>>)
    requires ValidParams(n, k) && CbitsOf(n, k) % 8 == 0
    requires IsAnswer(leaves, n, k, r)
    ensures r.Some? <==> exists idx :: EquihashSolution(leaves, n, k, idx)
    ensures r.Some? ==> IsValidSolution(leaves, n, k, r.value)
  {
    forall idx ensures Finds(leaves, n, k, idx) <==> EquihashSolution(leaves, n, k, idx) {
      FindsExactlySolutions(leaves, n, k, idx);
    }
  }

  /** And no round aborts. */
  lemma AlignedNeverAborts(leaves: Leaves, n: nat, k: nat)
    requires ValidParams(n, k) && CbitsOf(n, k) % 8 == 0
    ensures !TableAborts(leaves, n, k)
  {
    FindsExactlySolutions(leaves, n, k, []);
    FitsNeverAborts(leaves, n, k);
  }

  function LeavesOf(buffer: seq<byte>, width: nat, count: nat): (leaves: Leaves)
    requires count * width <= |buffer|
    ensures |leaves| == count && forall i :: 0 <= i < count ==> |leaves[i]| == width
  {
    if count == 0 then [] else
      Distribute(count - 1, 1, width);
      LeavesOf(buffer, width, count - 1) + [buffer[(count - 1) * width..(count - 1) * width + width]]
  }

  /** Leaf `i` of a packed buffer starts at byte `i * width`. */
  lemma {:induction false} LeafOfBuffer(buffer: seq<byte>, width: nat, count: nat, i: nat)
    requires i < count && count * width <= |buffer|
    ensures i * width + width <= |buffer|
    ensures LeavesOf(buffer, width, count)[i] == buffer[i * width..i * width + width]
  {
    NextMultiple(i, count, width);
    Distribute(count - 1, 1, width);
    if i < count - 1 {
      LeafOfBuffer(buffer, width, count - 1, i);
    }
  }

  /** Bad parameters come first, then the shift, then the length of the buffer. */
  method TryNonceWithLeaves(n: nat, k: nat, buffer: seq<byte>, isValid: seq<byte> -> bool)
    returns (out: Outcome<Option<seq<byte>>>)
    requires ValidParams(n, k) && CbitsOf(n, k) < 31 && Pow2(CbitsOf(n, k) + 1) * (n / 8) <= |buffer| ==>
               forall bytes :: isValid(bytes) <==>
                 IsValidSolution(LeavesOf(buffer, n / 8, Pow2(CbitsOf(n, k) + 1)), n, k, bytes)
    ensures n == 0 || k == 0 || n % 8 != 0 || n % (k + 1) != 0 || n <= k ==> out == Finished(None)
    ensures ValidParams(n, k) && CbitsOf(n, k) >= 31 ==> out == Aborted
    ensures ValidParams(n, k) && CbitsOf(n, k) < 31 ==>
              if |buffer| < Pow2(CbitsOf(n, k) + 1) * (n / 8) then out == Finished(None)
              else Searched(LeavesOf(buffer, n / 8, Pow2(CbitsOf(n, k) + 1)), n, k, out)
  {
    if !ValidParams(n, k) {
      return Finished(None);
    }
    if CbitsOf(n, k) >= 31 {
      return Aborted;
    }
    var nInit := Pow2(CbitsOf(n, k) + 1);
    if |buffer| < nInit * (n / 8) {
      return Finished(None);
    }
    out := SearchLeaves(LeavesOf(buffer, n / 8, nInit), n, k, isValid);
  }

  /** A digest call yields this many bytes, as many whole leaves as fit. */
  function HashOutputLen(n: nat): nat
    requires n != 0
  {
    512 / n * n / 8
  }

  lemma LeafInside(n: nat, i: nat)
    requires 0 < n <= 512 && n % 8 == 0
    ensures 512 / n >= 1
    ensures (i % (512 / n)) * (n / 8) + n / 8 <= HashOutputLen(n)
  {
    var per := 512 / n;
    NextMultiple(i % per, per, n / 8);
    assert per * n == 8 * (per * (n / 8));
  }

  /** The digest of the input, a nonce and a call counter, with the length asked for. */
  ghost predicate DigestFits(digest: (Nonce, nat) -> seq<byte>, n: nat) {
    0 < n <= 512 && forall nonce, call :: |digest(nonce, call)| == HashOutputLen(n)
  }

  /** Leaf `i`: several leaves share one digest call. */
  function GenerateLeafHash(digest: (Nonce, nat) -> seq<byte>, nonce: Nonce, n: nat, i: nat): (leaf: seq<byte>)
    requires n % 8 == 0 && DigestFits(digest, n)
    ensures |leaf| == n / 8
  {
    LeafInside(n, i);
    var off := (i % (512 / n)) * (n / 8);
    digest(nonce, i / (512 / n))[off..off + n / 8]
  }

  function NonceLeaves(digest: (Nonce, nat) -> seq<byte>, nonce: Nonce, n: nat, count: nat): (leaves: Leaves)
    requires n % 8 == 0 && DigestFits(digest, n)
    ensures |leaves| == count && forall i :: 0 <= i < count ==> |leaves[i]| == n / 8
  {
    if count == 0 then [] else
      NonceLeaves(digest, nonce, n, count - 1) + [GenerateLeafHash(digest, nonce, n, count - 1)]
  }

  lemma {:induction false} LeafOfNonce(digest: (Nonce, nat) -> seq<byte>, nonce: Nonce, n: nat, count: nat, i: nat)
    requires n % 8 == 0 && DigestFits(digest, n) && i < count
    ensures NonceLeaves(digest, nonce, n, count)[i] == GenerateLeafHash(digest, nonce, n, i)
  {
    if i < count - 1 {
      LeafOfNonce(digest, nonce, n, count - 1, i);
    }
  }

  /** The leaves a nonce gives for `(n, k)`. */
  function AllLeaves(digest: (Nonce, nat) -> seq<byte>, nonce: Nonce, n: nat, k: nat): (leaves: Leaves)
    requires n % 8 == 0 && DigestFits(digest, n)
    ensures LeafTable(leaves, n, k)
  {
    NonceLeaves(digest, nonce, n, Pow2(CbitsOf(n, k) + 1))
  }

  /** The verifier of the upstream crate, for every nonce. */
  ghost predicate Verifier(isValid: (Nonce, seq<byte>) -> bool, digest: (Nonce, nat) -> seq<byte>, n: nat, k: nat)
    requires n % 8 == 0 && DigestFits(digest, n)
  {
    forall nonce, bytes :: isValid(nonce, bytes) <==> IsValidSolution(AllLeaves(digest, nonce, n, k), n, k, bytes)
  }

  method TryNonce(n: nat, k: nat, digest: (Nonce, nat) -> seq<byte>, nonce: Nonce,
                  isValid: (Nonce, seq<byte>) -> bool) returns (out: Outcome<Option<seq<byte>>>)
    requires n % 8 == 0 && DigestFits(digest, n) && Verifier(isValid, digest, n, k)
    ensures Searched(AllLeaves(digest, nonce, n, k), n, k, out)
  {
    if CbitsOf(n, k) >= 31 {
      return Aborted;
    }
    out := SearchLeaves(AllLeaves(digest, nonce, n, k), n, k, bytes => isValid(nonce, bytes));
  }

  datatype Solution = Solution(nonce: Nonce, solnIndices: seq<byte>)

  datatype SolveError = InvalidParams | NoSolutionFound

  /** The first `m` nonces were searched without an abort and without an answer. */
  ghost predicate Barren(n: nat, k: nat, digest: (Nonce, nat) -> seq<byte>, nonces: seq<Nonce>, m: nat)
    requires n % 8 == 0 && DigestFits(digest, n) && m <= |nonces|
  {
    forall j :: 0 <= j < m ==> Searched(AllLeaves(digest, nonces[j], n, k), n, k, Finished(None))
  }

  /**
   Tries the nonces in the order they are handed out until one of them has an answer or
   aborts. Beyond 512 bits no leaf fits a digest, and its length 0 is refused.
   */
  method Solve(n: nat, k: nat, digest: (Nonce, nat) -> seq<byte>, nonces: seq<Nonce>,
               isValid: (Nonce, seq<byte>) -> bool) returns (out: Outcome<Result<Solution, SolveError>>)
    requires ValidParams(n, k) && n <= 512 ==> DigestFits(digest, n) && Verifier(isValid, digest, n, k)
    ensures n == 0 || k == 0 || n % 8 != 0 || n % (k + 1) != 0 || n <= k <==> out == Finished(Err(InvalidParams))
    ensures ValidParams(n, k) && n > 512 ==> out == Aborted
    ensures ValidParams(n, k) && n <= 512 ==>
              match out
              case Finished(Err(e)) => Barren(n, k, digest, nonces, |nonces|)
              case Finished(Ok(s)) =>
                exists i :: && 0 <= i < |nonces| && s.nonce == nonces[i] && Barren(n, k, digest, nonces, i)
                            && Searched(AllLeaves(digest, nonces[i], n, k), n, k, Finished(Some(s.solnIndices)))
              case Aborted =>
                exists i :: && 0 <= i < |nonces| && Barren(n, k, digest, nonces, i)
                            && SearchAborts(AllLeaves(digest, nonces[i], n, k), n, k)
  {
    if !ValidParams(n, k) {
      return Finished(Err(InvalidParams));
    }
    if n > 512 {
      return Aborted;
    }
    for i := 0 to |nonces|
      invariant Barren(n, k, digest, nonces, i)
    {
      var tried := TryNonce(n, k, digest, nonces[i], isValid);
      if tried.Aborted? {
        return Aborted;
      }
      if tried.value.Some? {
        return Finished(Ok(Solution(nonces[i], tried.value.value)));
      }
    }
    return Finished(Err(NoSolutionFound));
  }
}
