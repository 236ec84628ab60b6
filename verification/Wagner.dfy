/**
 The five rounds of the GPU-shaped pipeline: which trees are still there after each round,
 and so exactly which solutions are returned.
 */
module Wagner {
  import opened Arith
  import opened Bags
  import opened Bits
  import opened Buckets
  import opened Equihash
  import opened Solver
  import opened Search
  import opened ShaderRef
  import opened GpuPipeline

  ghost predicate TwelveByteLeaves(leaves: Leaves) {
    forall i :: 0 <= i < |leaves| ==> |leaves[i]| == LEAF_BYTES
  }

  // ------------------------------------------------------------------ traces

  /** The rows before each round and after the last. */
  type Trace = t: seq<seq<RowFixed>> | |t| == ROUNDS + 1 witness seq(ROUNDS + 1, _ => [])

  ghost predicate IsStep(trace: Trace, r: nat)
    requires r < ROUNDS
  {
    && 2 * Pow2(r) <= INDICES_MAX
    && multiset(trace[r + 1]) == PairBag(Survivors(trace[r]), EmissionFixed(Pow2(r)))
  }

  /** Five rounds from the leaves, with the rows of each round in any order. */
  ghost predicate IsTrace(leaves: Leaves, trace: Trace) {
    AllTrees(leaves, 0, multiset(trace[0])) && forall r :: 0 <= r < ROUNDS ==> IsStep(trace, r)
  }

  /** The rows after `r` rounds, in the order the program has them: a function of the leaves. */
  ghost function RowsAfter(leaves: Leaves, r: nat): seq<RowFixed>
    requires TwelveByteLeaves(leaves) && r <= ROUNDS
  {
    if r == 0 then InitialPacked(leaves)
    else ShapedFits(r - 1); RoundRows(RowsAfter(leaves, r - 1), Pow2(r - 1))
  }

  ghost function InitialPacked(leaves: Leaves): (rows: seq<RowFixed>)
    requires TwelveByteLeaves(leaves)
    ensures |rows| == |leaves|
    ensures forall i :: 0 <= i < |leaves| ==> rows[i] == PackInitialRow(leaves[i], i)
  {
    seq(|leaves|, i requires 0 <= i < |leaves| => PackInitialRow(leaves[i], i))
  }

  ghost function TraceOf(leaves: Leaves): (trace: Trace)
    requires TwelveByteLeaves(leaves)
    ensures forall r :: 0 <= r <= ROUNDS ==> trace[r] == RowsAfter(leaves, r)
  {
    seq(ROUNDS + 1, r requires 0 <= r <= ROUNDS => RowsAfter(leaves, r))
  }

  /** The rows of the program, round by round. */
  ghost predicate IsRun(leaves: Leaves, trace: Trace)
    requires TwelveByteLeaves(leaves)
  {
    trace[0] == InitialPacked(leaves) && forall r :: 0 <= r < ROUNDS ==> IsRunStep(trace, r)
  }

  ghost predicate IsRunStep(trace: Trace, r: nat)
    requires r < ROUNDS
  {
    2 * Pow2(r) <= INDICES_MAX && trace[r + 1] == RoundRows(trace[r], Pow2(r))
  }

  lemma TraceOfIsRun(leaves: Leaves)
    requires TwelveByteLeaves(leaves)
    ensures IsRun(leaves, TraceOf(leaves)) && IsTrace(leaves, TraceOf(leaves))
  {
    forall r | 0 <= r < ROUNDS ensures IsRunStep(TraceOf(leaves), r) {
      RowsStep(leaves, r, r + 1);
    }
    RunIsTrace(leaves, TraceOf(leaves));
  }

  lemma RowsStep(leaves: Leaves, r: nat, next: nat)
    requires TwelveByteLeaves(leaves) && r < ROUNDS && next == r + 1
    ensures 2 * Pow2(r) <= INDICES_MAX && RowsAfter(leaves, next) == RoundRows(RowsAfter(leaves, r), Pow2(r))
  {
    ShapedFits(r);
  }

  lemma RunIsTrace(leaves: Leaves, trace: Trace)
    requires TwelveByteLeaves(leaves) && IsRun(leaves, trace)
    ensures IsTrace(leaves, trace)
  {
    InitialTrees(leaves, trace[0]);
    forall r | 0 <= r < ROUNDS ensures IsStep(trace, r) {
      assert IsRunStep(trace, r);
      RoundRowsBag(trace[r], Pow2(r));
    }
  }

  lemma StepOf(leaves: Leaves, trace: Trace, r: nat, next: nat)
    requires IsTrace(leaves, trace) && r < ROUNDS && next == r + 1
    ensures 2 * Pow2(r) <= INDICES_MAX
    ensures multiset(trace[next]) == PairBag(Survivors(trace[r]), EmissionFixed(Pow2(r)))
  {
    assert IsStep(trace, r);
  }

  /** Trees only, in the rows before round `r`. */
  ghost predicate TreesAt(leaves: Leaves, trace: Trace, r: nat)
    requires r <= ROUNDS
  {
    OnlyTrees(leaves, r, multiset(trace[r]))
  }

  lemma FirstTrees(leaves: Leaves, trace: Trace)
    requires IsTrace(leaves, trace)
    ensures TreesAt(leaves, trace, 0)
  {
  }

  lemma TreesStep(leaves: Leaves, trace: Trace, r: nat, next: nat)
    requires IsTrace(leaves, trace) && r < ROUNDS && next == r + 1 && TreesAt(leaves, trace, r)
    ensures TreesAt(leaves, trace, next)
  {
    StepOf(leaves, trace, r, next);
    OnlyFromKernel(leaves, r, trace[r], multiset(trace[next]));
  }

  lemma {:induction false} TraceTrees(leaves: Leaves, trace: Trace, r: nat)
    requires IsTrace(leaves, trace) && r <= ROUNDS
    ensures TreesAt(leaves, trace, r)
  {
    FirstTrees(leaves, trace);
    for i := 0 to r
      invariant TreesAt(leaves, trace, i)
    {
      TreesStep(leaves, trace, i, i + 1);
    }
  }

  // ------------------------------------------------------------------ rows that find their bucket full

  /** The row stands at a place where 16 rows before it have taken the slots of its bucket. */
  ghost predicate FoundFull(rows: seq<RowFixed>, x: RowFixed) {
    exists p :: 0 <= p < |rows| && rows[p] == x && BucketFull(rows, p)
  }

  lemma {:induction false} KeptMember<A>(rows: seq<A>, bs: seq<nat>, m: nat, x: A)
    requires |rows| == |bs| && m <= |bs|
    ensures x in KeptRows(rows, bs, 0, m) <==> exists p :: 0 <= p < m && rows[p] == x && Kept(bs, p)
  {
    if m > 0 {
      KeptMember(rows, bs, m - 1, x);
    }
  }

  lemma TreeOncePlace(leaves: Leaves, r: nat, rows: seq<RowFixed>, p: nat, q: nat)
    requires OnlyTrees(leaves, r, multiset(rows)) && p < |rows| && q < |rows| && rows[p] == rows[q]
    ensures p == q
  {
    if p < q {
      TwiceInBag(rows, p, q);
    } else if q < p {
      TwiceInBag(rows, q, p);
    }
  }

  lemma SurvivesIff(leaves: Leaves, r: nat, rows: seq<RowFixed>, x: RowFixed)
    requires OnlyTrees(leaves, r, multiset(rows))
    ensures x in Survivors(rows) <==> x in rows && !FoundFull(rows, x)
  {
    KeptMember(rows, RowBuckets(rows), |rows|, x);
    AllKeptIff(rows);
    forall p, q | 0 <= p < |rows| && 0 <= q < |rows| && rows[p] == x && rows[q] == x ensures p == q {
      TreeOncePlace(leaves, r, rows, p, q);
    }
  }

  // ------------------------------------------------------------------ trees that come through

  /** No part of the tree, below its root, ever finds its bucket full. */
  ghost predicate NeverDropped(leaves: Leaves, trace: Trace, r: nat, idx: seq<nat>)
    requires r <= ROUNDS
    decreases r, 0
  {
    && |idx| == Pow2(r)
    && (r == 0 || (&& PartStays(leaves, trace, r - 1, idx[..Pow2(r - 1)])
                   && PartStays(leaves, trace, r - 1, idx[Pow2(r - 1)..])))
  }

  ghost predicate PartStays(leaves: Leaves, trace: Trace, r: nat, idx: seq<nat>)
    requires r < ROUNDS
    decreases r, 1
  {
    && NeverDropped(leaves, trace, r, idx)
    && !FoundFull(trace[r], FixedTree(leaves, r, idx))
  }

  /** The two halves of a tree, and what its fate depends on. */
  lemma TreeParts(leaves: Leaves, trace: Trace, r: nat, next: nat, idx: seq<nat>)
    returns (left: seq<nat>, right: seq<nat>)
    requires r < ROUNDS && next == r + 1 && CodeTree(leaves, CBITS, idx, next)
    ensures idx == left + right && |left| == |right| == Pow2(r)
    ensures CodeTree(leaves, CBITS, left, r) && CodeTree(leaves, CBITS, right, r)
    ensures NeverDropped(leaves, trace, next, idx)
       <==> PartStays(leaves, trace, r, left) && PartStays(leaves, trace, r, right)
  {
    left, right := idx[..Pow2(r)], idx[Pow2(r)..];
    assert idx == left + right;
    CodeTreeHalves(leaves, CBITS, left, right, r);
  }

  /** A tree is there after `r` rounds exactly when none of its parts has been dropped. */
  lemma {:induction false} InTraceIff(leaves: Leaves, trace: Trace, r: nat, idx: seq<nat>)
    requires IsTrace(leaves, trace) && r <= ROUNDS && CodeTree(leaves, CBITS, idx, r)
    ensures FixedTree(leaves, r, idx) in trace[r] <==> NeverDropped(leaves, trace, r, idx)
    decreases r, 0
  {
    if r == 0 {
      LeafInTrace(leaves, trace, idx);
    } else {
      TreeInTrace(leaves, trace, r - 1, r, idx);
    }
  }

  lemma TreeInTrace(leaves: Leaves, trace: Trace, r: nat, next: nat, idx: seq<nat>)
    requires IsTrace(leaves, trace) && r < ROUNDS && next == r + 1 && CodeTree(leaves, CBITS, idx, next)
    ensures FixedTree(leaves, next, idx) in trace[next] <==> NeverDropped(leaves, trace, next, idx)
    decreases r, 2
  {
    var left, right := TreeParts(leaves, trace, r, next, idx);
    PartInTrace(leaves, trace, r, left);
    PartInTrace(leaves, trace, r, right);
    RootInTrace(leaves, trace, r, next, left, right);
  }

  lemma PartInTrace(leaves: Leaves, trace: Trace, r: nat, idx: seq<nat>)
    requires IsTrace(leaves, trace) && r < ROUNDS && CodeTree(leaves, CBITS, idx, r)
    ensures FixedTree(leaves, r, idx) in Survivors(trace[r]) <==> PartStays(leaves, trace, r, idx)
    decreases r, 1
  {
    InTraceIff(leaves, trace, r, idx);
    TraceTrees(leaves, trace, r);
    SurvivesIff(leaves, r, trace[r], FixedTree(leaves, r, idx));
  }

  lemma LeafInTrace(leaves: Leaves, trace: Trace, idx: seq<nat>)
    requires IsTrace(leaves, trace) && CodeTree(leaves, CBITS, idx, 0)
    ensures FixedTree(leaves, 0, idx) in trace[0]
  {
    FixedTreeIs(leaves, 0, idx);
    assert multiset(trace[0])[FixedTree(leaves, 0, idx)] == 1;
  }

  lemma RootInTrace(leaves: Leaves, trace: Trace, r: nat, next: nat, left: seq<nat>, right: seq<nat>)
    requires IsTrace(leaves, trace) && r < ROUNDS && next == r + 1 && |left| == |right| == Pow2(r)
    requires CodeTree(leaves, CBITS, left + right, next)
    ensures FixedTree(leaves, next, left + right) in trace[next] <==>
      FixedTree(leaves, r, left) in Survivors(trace[r]) && FixedTree(leaves, r, right) in Survivors(trace[r])
  {
    StepOf(leaves, trace, r, next);
    TraceTrees(leaves, trace, r);
    SurvivorsAreTrees(leaves, r, trace[r]);
    RootEmitted(leaves, r, Survivors(trace[r]), left, right);
    InBag(trace[next], FixedTree(leaves, next, left + right));
  }

  lemma InBag<T>(s: seq<T>, x: T)
    ensures x in s <==> multiset(s)[x] > 0
  {
  }

  lemma RootEmitted(leaves: Leaves, r: nat, rows: seq<RowFixed>, left: seq<nat>, right: seq<nat>)
    requires r < ROUNDS && 2 * Pow2(r) <= INDICES_MAX && OnlyTrees(leaves, r, multiset(rows))
    requires |left| == |right| == Pow2(r) && CodeTree(leaves, CBITS, left + right, r + 1)
    ensures PairBag(rows, EmissionFixed(Pow2(r)))[FixedTree(leaves, r + 1, left + right)] > 0 <==>
      FixedTree(leaves, r, left) in rows && FixedTree(leaves, r, right) in rows
  {
    var y := FixedTree(leaves, r + 1, left + right);
    FixedTreeIs(leaves, r + 1, left + right);
    KernelOnTrees(leaves, r, rows, y);
    assert (left + right)[..Pow2(r)] == left && (left + right)[Pow2(r)..] == right;
  }

  // ------------------------------------------------------------------ what is returned

  /** The pipeline returns this row: a solution none of whose parts is dropped. */
  ghost predicate ComesThrough(leaves: Leaves, trace: Trace, y: RowFixed) {
    IsSolutionRow(leaves, y) && NotDropped(leaves, trace, y.indices)
  }

  /** No part of a tree over all rounds is dropped. */
  ghost predicate NotDropped(leaves: Leaves, trace: Trace, idx: seq<nat>) {
    NeverDropped(leaves, trace, |trace| - 1, idx)
  }

  /**
   However the rows of a round are ordered, the rows with a zero hash after five rounds are
   the solutions none of whose parts ever found its bucket full, each once.
   */
  lemma ZeroHashesLeft(leaves: Leaves, trace: Trace, y: RowFixed)
    requires IsTrace(leaves, trace) && y.hash == Hash(0, 0, 0)
    ensures multiset(trace[ROUNDS])[y] == if ComesThrough(leaves, trace, y) then 1 else 0
  {
    TraceTrees(leaves, trace, ROUNDS);
    ZeroHashIsSolution(leaves, y);
    PowersOfTwo();
    assert y.indices[..Pow2(ROUNDS)] == y.indices;
    if IsFixedTree(leaves, ROUNDS, y) {
      InTraceIff(leaves, trace, ROUNDS, y.indices);
    }
  }

  /** When no bucket is crowded, every tree is there in every round. */
  lemma UncrowdedTrace(leaves: Leaves, trace: Trace, r: nat)
    requires IsTrace(leaves, trace) && Uncrowded(leaves) && r <= ROUNDS
    ensures AllTrees(leaves, r, multiset(trace[r]))
  {
    for i := 0 to r
      invariant AllTrees(leaves, i, multiset(trace[i]))
    {
      StepOf(leaves, trace, i, i + 1);
      assert BucketsSuffice(leaves, i);
      UncrowdedStep(leaves, i, trace[i], multiset(trace[i + 1]));
    }
  }

  lemma UncrowdedStep(leaves: Leaves, r: nat, rows: seq<RowFixed>, next: multiset<RowFixed>)
    requires r < ROUNDS && 2 * Pow2(r) <= INDICES_MAX
    requires AllTrees(leaves, r, multiset(rows)) && BucketsSuffice(leaves, r)
    requires next == PairBag(Survivors(rows), EmissionFixed(Pow2(r)))
    ensures AllTrees(leaves, r + 1, next)
  {
    SufficeMeansFit(leaves, r, rows);
    SurvivorsPart(rows, Pow2(r));
    AllFromAll(leaves, r, rows, next);
  }

  lemma UncrowdedDropsNone(leaves: Leaves, trace: Trace, y: RowFixed)
    requires IsTrace(leaves, trace) && Uncrowded(leaves)
    ensures ComesThrough(leaves, trace, y) <==> IsSolutionRow(leaves, y)
  {
    if IsSolutionRow(leaves, y) {
      ZeroHashIsSolution(leaves, y);
      UncrowdedTrace(leaves, trace, ROUNDS);
      ZeroHashesLeft(leaves, trace, y);
    }
  }

  /** When no bucket is crowded, all orders of rows give the same results. */
  lemma OrdersAgree(leaves: Leaves, trace: Trace, other: Trace, y: RowFixed)
    requires IsTrace(leaves, trace) && IsTrace(leaves, other) && Uncrowded(leaves) && y.hash == Hash(0, 0, 0)
    ensures multiset(trace[ROUNDS])[y] == multiset(other[ROUNDS])[y]
  {
    ZeroHashesLeft(leaves, trace, y);
    ZeroHashesLeft(leaves, other, y);
    UncrowdedDropsNone(leaves, trace, y);
    UncrowdedDropsNone(leaves, other, y);
  }

  // ------------------------------------------------------------------ leaves that survive the first round

  /** Fewer than 16 leaves before leaf `i` start with the same two bytes. */
  ghost predicate KeptLeaf(leaves: Leaves, i: nat)
    requires TwelveByteLeaves(leaves)
  {
    i < |leaves| && |set q | 0 <= q < i && leaves[q][..2] == leaves[i][..2]| < 16
  }

  /** A tree that comes through has only leaves that took part in the first round. */
  lemma LeavesKept(leaves: Leaves, trace: Trace, r: nat, next: nat, idx: seq<nat>)
    requires TwelveByteLeaves(leaves) && trace[0] == InitialPacked(leaves)
    requires r < ROUNDS && next == r + 1 && CodeTree(leaves, CBITS, idx, next)
    requires NeverDropped(leaves, trace, next, idx)
    ensures HasKeptLeaves(leaves, idx)
    decreases r, 1
  {
    var left, right := TreeParts(leaves, trace, r, next, idx);
    PartKept(leaves, trace, r, left);
    PartKept(leaves, trace, r, right);
    KeptConcat(leaves, left, right);
  }

  lemma {:induction false} PartKept(leaves: Leaves, trace: Trace, r: nat, idx: seq<nat>)
    requires TwelveByteLeaves(leaves) && trace[0] == InitialPacked(leaves)
    requires r < ROUNDS && CodeTree(leaves, CBITS, idx, r) && PartStays(leaves, trace, r, idx)
    ensures HasKeptLeaves(leaves, idx)
    decreases r, 0
  {
    if r == 0 {
      LeafKept(leaves, trace, idx);
    } else {
      LeavesKept(leaves, trace, r - 1, r, idx);
    }
  }

  ghost predicate HasKeptLeaves(leaves: Leaves, idx: seq<nat>)
    requires TwelveByteLeaves(leaves)
  {
    forall t :: 0 <= t < |idx| ==> KeptLeaf(leaves, idx[t])
  }

  lemma KeptConcat(leaves: Leaves, a: seq<nat>, b: seq<nat>)
    requires TwelveByteLeaves(leaves) && HasKeptLeaves(leaves, a) && HasKeptLeaves(leaves, b)
    ensures HasKeptLeaves(leaves, a + b)
  {
  }

  lemma LeafKept(leaves: Leaves, trace: Trace, idx: seq<nat>)
    requires TwelveByteLeaves(leaves) && trace[0] == InitialPacked(leaves) && CodeTree(leaves, CBITS, idx, 0)
    requires PartStays(leaves, trace, 0, idx)
    ensures HasKeptLeaves(leaves, idx)
  {
    var i := idx[0];
    assert Pow2(0) == 1;
    assert idx == [i];
    LeafRow(leaves, i);
    assert trace[0][i] == FixedTree(leaves, 0, idx);
    LeafPeers(leaves, i);
  }

  lemma LeafPeers(leaves: Leaves, i: nat)
    requires TwelveByteLeaves(leaves) && i < |leaves|
    ensures KeptLeaf(leaves, i) <==> !BucketFull(InitialPacked(leaves), i)
  {
    var rows := InitialPacked(leaves);
    forall q | 0 <= q < i ensures RowBucket(rows[q]) == RowBucket(rows[i]) <==> leaves[q][..2] == leaves[i][..2] {
      SameBucket(leaves[q], leaves[i]);
      WholeBytesAgree(leaves[q], leaves[i], 2);
    }
    assert (set q | 0 <= q < i && RowBucket(rows[q]) == RowBucket(rows[i]))
        == (set q | 0 <= q < i && leaves[q][..2] == leaves[i][..2]);
  }

  ghost predicate AllFromKept(leaves: Leaves, rows: seq<RowFixed>)
    requires TwelveByteLeaves(leaves)
  {
    forall y: RowFixed :: y in rows ==> HasKeptLeaves(leaves, y.indices)
  }

  lemma ReturnedFromKept(leaves: Leaves, trace: Trace, y: RowFixed)
    requires TwelveByteLeaves(leaves) && trace[0] == InitialPacked(leaves) && ComesThrough(leaves, trace, y)
    ensures HasKeptLeaves(leaves, y.indices)
  {
    ZeroHashIsSolution(leaves, y);
    PowersOfTwo();
    assert y.indices[..Pow2(ROUNDS)] == y.indices;
    LeavesKept(leaves, trace, ROUNDS - 1, ROUNDS, y.indices);
  }

  // ------------------------------------------------------------------ the pipeline

  method InitialFixed(leaves: Leaves) returns (rows: seq<RowFixed>)
    requires TwelveByteLeaves(leaves)
    ensures rows == InitialPacked(leaves)
  {
    rows := [];
    for i := 0 to |leaves|
      invariant |rows| == i
      invariant forall j :: 0 <= j < i ==> rows[j] == PackInitialRow(leaves[j], j)
    {
      rows := rows + [PackInitialRow(leaves[i], i)];
    }
  }

  /** The rows with a zero hash, in order. */
  ghost function ZeroRows(rows: seq<RowFixed>): seq<RowFixed> {
    if rows == [] then [] else
      var last := rows[|rows| - 1];
      ZeroRows(rows[..|rows| - 1]) + if last.hash == Hash(0, 0, 0) then [last] else []
  }

  lemma {:induction false} ZeroRowsCount(rows: seq<RowFixed>, y: RowFixed)
    ensures multiset(ZeroRows(rows))[y] == if y.hash == Hash(0, 0, 0) then multiset(rows)[y] else 0
  {
    if rows != [] {
      ZeroRowsCount(rows[..|rows| - 1], y);
      assert rows == rows[..|rows| - 1] + [rows[|rows| - 1]];
    }
  }

  method ZeroHashRows(rows: seq<RowFixed>) returns (kept: seq<RowFixed>)
    ensures kept == ZeroRows(rows)
  {
    kept := [];
    for i := 0 to |rows|
      invariant kept == ZeroRows(rows[..i])
    {
      assert rows[..i + 1][..i] == rows[..i];
      if rows[i].hash == Hash(0, 0, 0) {
        kept := kept + [rows[i]];
      }
    }
    assert rows[..|rows|] == rows;
  }

  /** Exactly the solutions that come through, each once. */
  ghost predicate ReturnsExactly(leaves: Leaves, solutions: seq<RowFixed>)
    requires TwelveByteLeaves(leaves)
  {
    forall y: RowFixed :: multiset(solutions)[y] == if ComesThrough(leaves, TraceOf(leaves), y) then 1 else 0
  }

  /** Exactly the solutions, each once. */
  ghost predicate ReturnsAll(leaves: Leaves, solutions: seq<RowFixed>) {
    forall y: RowFixed :: multiset(solutions)[y] == if IsSolutionRow(leaves, y) then 1 else 0
  }

  lemma ReturnedExactly(leaves: Leaves)
    requires TwelveByteLeaves(leaves)
    ensures ReturnsExactly(leaves, ZeroRows(RowsAfter(leaves, ROUNDS)))
  {
    var trace := TraceOf(leaves);
    var solutions: seq<RowFixed> := ZeroRows(RowsAfter(leaves, ROUNDS));
    TraceOfIsRun(leaves);
    forall y: RowFixed ensures multiset(solutions)[y] == (if ComesThrough(leaves, trace, y) then 1 else 0) {
      ZeroRowsCount(trace[ROUNDS], y);
      if y.hash == Hash(0, 0, 0) {
        ZeroHashesLeft(leaves, trace, y);
      }
    }
  }

  lemma ReturnedKept(leaves: Leaves, solutions: seq<RowFixed>)
    requires TwelveByteLeaves(leaves) && ReturnsExactly(leaves, solutions)
    ensures AllFromKept(leaves, solutions)
  {
    forall y: RowFixed | y in solutions ensures HasKeptLeaves(leaves, y.indices) {
      InBag(solutions, y);
      ReturnedFromKept(leaves, TraceOf(leaves), y);
    }
  }

  lemma ReturnedAll(leaves: Leaves, solutions: seq<RowFixed>)
    requires TwelveByteLeaves(leaves) && ReturnsExactly(leaves, solutions) && Uncrowded(leaves)
    ensures ReturnsAll(leaves, solutions)
  {
    TraceOfIsRun(leaves);
    forall y: RowFixed ensures ComesThrough(leaves, TraceOf(leaves), y) <==> IsSolutionRow(leaves, y) {
      UncrowdedDropsNone(leaves, TraceOf(leaves), y);
    }
  }

  method FiveRounds(leaves: Leaves, ghost trace: Trace) returns (rows: seq<RowFixed>)
    requires TwelveByteLeaves(leaves) && IsRun(leaves, trace)
    ensures rows == trace[ROUNDS]
  {
    rows := InitialFixed(leaves);
    for r := 0 to ROUNDS
      invariant rows == trace[r]
    {
      assert IsRunStep(trace, r);
      rows := RoundKernel(rows, Pow2(r));
    }
  }

  /**
   Five rounds and the zero test. Returned are exactly the solutions none of whose parts
   finds its bucket full in its round, each once; so they use only leaves that took part in
   the first round, and when no bucket is crowded they are all solutions.
   */
  method WagnerFull(buffer: seq<byte>) returns (solutions: seq<RowFixed>)
    ensures |buffer| / LEAF_BYTES * LEAF_BYTES <= |buffer|
    ensures var leaves := LeavesOf(buffer, LEAF_BYTES, |buffer| / LEAF_BYTES);
            && ReturnsExactly(leaves, solutions) && AllFromKept(leaves, solutions)
            && (Uncrowded(leaves) ==> ReturnsAll(leaves, solutions))
            && solutions == ZeroRows(RowsAfter(leaves, ROUNDS))
  {
    var leaves := LeavesOf(buffer, LEAF_BYTES, |buffer| / LEAF_BYTES);
    TraceOfIsRun(leaves);
    var rows := FiveRounds(leaves, TraceOf(leaves));
    solutions := ZeroHashRows(rows);
    ReturnedExactly(leaves);
    ReturnedKept(leaves, solutions);
    if Uncrowded(leaves) {
      ReturnedAll(leaves, solutions);
    }
  }
}
