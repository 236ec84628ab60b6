/**
 From the input and a nonce to the answer: the GPU-shaped search over the leaves of the
 kernel's digest, against the solver's search over the same leaves.
 */
module EndToEnd {
  import opened Arith
  import opened Bits
  import opened Wrappers
  import opened Equihash
  import opened BitPacking
  import opened Solver
  import opened Search
  import opened ShaderRef
  import opened GpuPipeline
  import opened Wagner
  import opened Digest

  const LEAF_COUNT := 0x2_0000

  lemma LeafCount()
    ensures CbitsOf(96, 5) == 16 && Pow2(17) == LEAF_COUNT
  {
    assert Pow2(8) == 0x100;
    Pow2Sum(8, 8);
  }

  /** The leaves of Equihash (96, 5) for an input and a nonce. */
  ghost function NonceTable(input: seq<byte>, nonce: Nonce): (leaves: Leaves)
    ensures LeafTable(leaves, 96, 5) && TwelveByteLeaves(leaves)
  {
    AllLeaves(LeafDigest(96, 5, input), nonce, 96, 5)
  }

  lemma BufferIsTable(input: seq<byte>, nonce: Nonce, buffer: seq<byte>)
    requires HoldsLeaves(LeafDigest(96, 5, input), nonce, buffer, LEAF_COUNT)
    ensures |buffer| / LEAF_BYTES == LEAF_COUNT
    ensures LeavesOf(buffer, LEAF_BYTES, LEAF_COUNT) == NonceTable(input, nonce)
  {
    LeafCount();
  }

  /** The reference run of the pipeline: all leaves of a nonce, five rounds, the zero test. */
  method ReferenceSearch(input: seq<byte>, nonce: Nonce) returns (solutions: seq<RowFixed>)
    requires |input| == 81 && |nonce| == 32
    ensures ReturnsExactly(NonceTable(input, nonce), solutions)
    ensures Uncrowded(NonceTable(input, nonce)) ==> ReturnsAll(NonceTable(input, nonce), solutions)
  {
    var buffer := LeafBytes(input, nonce, LEAF_COUNT);
    BufferIsTable(input, nonce, buffer);
    solutions := WagnerFull(buffer);
  }

  /** The row the pipeline has for a solution. */
  ghost function SolutionRow(idx: seq<nat>): RowFixed
    requires |idx| == INDICES_MAX
  {
    RawRow(Hash(0, 0, 0), idx)
  }

  /** Some solution is dropped by no bucket. */
  ghost predicate SomeComesThrough(leaves: Leaves)
    requires TwelveByteLeaves(leaves)
  {
    exists y :: ComesThrough(leaves, TraceOf(leaves), y)
  }

  lemma ReturnsSome(leaves: Leaves, solutions: seq<RowFixed>)
    requires TwelveByteLeaves(leaves) && ReturnsExactly(leaves, solutions)
    ensures solutions != [] <==> SomeComesThrough(leaves)
  {
    if solutions != [] {
      InBag<RowFixed>(solutions, solutions[0]);
      assert ComesThrough(leaves, TraceOf(leaves), solutions[0]);
    }
    if y :| ComesThrough(leaves, TraceOf(leaves), y) {
      InBag<RowFixed>(solutions, y);
    }
  }

  lemma ReturnedSolves(leaves: Leaves, solutions: seq<RowFixed>)
    requires TwelveByteLeaves(leaves) && ReturnsExactly(leaves, solutions) && solutions != []
    ensures IsSolutionRow(leaves, solutions[0])
  {
    InBag<RowFixed>(solutions, solutions[0]);
  }

  /**
   The solver's search over the same leaves does not panic. The pipeline returns a row
   exactly when some solution is dropped by no bucket, and then the solver answers too. The
   solver's answer is among the rows returned exactly when none of its parts was dropped.
   */
  lemma AgainstSolver(leaves: Leaves, solutions: seq<RowFixed>, out: Outcome<Option<seq<byte>>>)
    requires LeafTable(leaves, 96, 5) && TwelveByteLeaves(leaves)
    requires ReturnsExactly(leaves, solutions) && Searched(leaves, 96, 5, out)
    ensures out.Finished?
    ensures solutions != [] <==> SomeComesThrough(leaves)
    ensures solutions != [] ==> out.value.Some?
    ensures out.value.Some? ==> AnswerReturnedIff(leaves, solutions, out.value.value)
  {
    assert CbitsOf(96, 5) == 16;
    AlignedNeverAborts(leaves, 96, 5);
    AlignedAnswer(leaves, 96, 5, out.value);
    ReturnsSome(leaves, solutions);
    if solutions != [] {
      ReturnedSolves(leaves, solutions);
      assert EquihashSolution(leaves, 96, 5, solutions[0].indices);
    }
    if out.value.Some? {
      AnswerReturned(leaves, solutions, out.value.value);
    }
  }

  ghost predicate AnswerReturnedIff(leaves: Leaves, solutions: seq<RowFixed>, packed: seq<byte>)
    requires TwelveByteLeaves(leaves)
  {
    exists idx :: && |idx| == INDICES_MAX && EquihashSolution(leaves, 96, 5, idx) && IsPacked(packed, idx, 17)
                  && (SolutionRow(idx) in solutions <==> NotDropped(leaves, TraceOf(leaves), idx))
  }

  lemma AnswerReturned(leaves: Leaves, solutions: seq<RowFixed>, packed: seq<byte>)
    requires TwelveByteLeaves(leaves) && ReturnsExactly(leaves, solutions)
    requires IsValidSolution(leaves, 96, 5, packed)
    ensures AnswerReturnedIff(leaves, solutions, packed)
  {
    var idx :| EquihashSolution(leaves, 96, 5, idx) && IsPacked(packed, idx, 17);
    PowersOfTwo();
    InBag<RowFixed>(solutions, SolutionRow(idx));
    assert ComesThrough(leaves, TraceOf(leaves), SolutionRow(idx)) <==> NotDropped(leaves, TraceOf(leaves), idx);
  }
}
