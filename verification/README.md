# Verified model of Equium

This project models the logic of Equium, a proof-of-work token on Solana whose blocks are
mined with Equihash (96, 5), and proves properties of that model. `dafny verify dfyconfig.toml`
checks all of it.

## What is modelled

**The Equihash solver** (`Equihash`, `Solver`, `Rounds`, `BitPacking`, `Search`, `Alignment`,
`ZeroLeaves`). `Equihash` defines a solution as section 7.7.1 of the Zcash Protocol Specification
does, flat, over a table of leaves that may hold any bytes. The solver's rounds of sort, group,
pair, XOR and trim are imperative methods; after each round the rows are, as a multiset, exactly
the index trees of that height, each once. A comparison beyond the end of a hash panics; the
methods return that as an outcome, and the tables on which it happens are described exactly. For
collision widths of whole bytes the search never panics in a round and finds exactly the Equihash
solutions. `Alignment` proves two conditions on the accepted parameters, each in both directions
and with tables on which it fails: when every table with a solution is searched without a panic and
the solution found, and when no table at all, with a solution or without, makes the search panic.

**The GPU-shaped port** (`Buckets`, `ShaderRef`, `GpuPipeline`, `Wagner`, `Overflow`,
`EndToEnd`). A capped counting
sort over packed 32-bit words. A row is dropped exactly when 16 rows before it lie in its bucket. A
round gives the pairs among the other rows, in order of the first row and then of the second; as a
multiset the same in whatever order rows claim slots. These are some of the solver's pairs, and all
of them exactly when every row that is dropped shares an index with each earlier row of the bucket. Over five
rounds the zero-hash test selects exactly the solutions none of whose subtrees ever stands at a
place where 16 rows before it have filled its bucket; when no bucket is crowded these are all
solutions. The rows of each round, order included, are a function of the leaves, so the condition is
one on the leaves; the same theorem holds for any other order of the rows. `Overflow` has the inputs
on which a full bucket does and does not matter, up to a buffer with a solution for which the
pipeline returns nothing. `EndToEnd` joins the leaf digest, this pipeline and the solver's search.

**Target arithmetic and schedule** (`Target`, `Schedule`). Fixed-width limb arithmetic
(`u8`, `u64`, `u128` as bounded integers, every intermediate proved in range) against the one-line
formula; retargeting with its clamps and saturating products; the sum of all rewards.

**The on-chain program** (`Program`, `Outcomes`, `Ledger`, `OnChain`). `Program` is the state machine
over immutable states with a history; `Outcomes` says in plain numbers what each instruction leaves
in every field and in the history, and who may do it; `Ledger` proves what holds in every reachable
state; `OnChain` is the imperative form, a config object changed field by field in a copy that is
written back only on success, refining `Program` step by step.

**The race for a nonce** (`Race`). Threads, stop flag, channel of capacity one, a receive that
may time out, and a join, as interleaved atomic steps: what is returned, what the flag stops, and
exactly when every run returns.

**The explorer** (`History`, `Pagination`, `Aggregates`, `Indexer`). The signature history as the
RPC node serves it, growing while it is read; page fetching with its nested loops, each block tied
to the fields of its entry; the indexer's backfill and ticks over Redis hashes against sums over the
log lines, and what a whole run of them misses.

**The leaf digest** (`Words`, `WordNumbers`, `LittleEndian`, `Blake2b`, `KnownAnswer`, `Digest`).
Two-word BLAKE2b compression against section 3.2 of RFC 7693, and the kernel's one-block digest
against section 3.3 for messages of any length, down to the leaves cut from it. The specification
itself is held to a known answer with sixteen different message words, proved round by round, and
its constants to the laws they come from.

**Codec and limiter** (`Base64`, `RateLimit`). The inline base64 codec against RFC 4648, and the
per-address sliding window.

`Arith`, `Bits`, `Bags` and `Wrappers` hold shared helpers.

## Conventions

- Leaf and call indices, heights inside specifications and row counts are natural numbers; machine
  widths are explicit where the code's results depend on them (targets, config fields, 32-bit
  words, bytes).
- The digest behind the solver's leaves, the hash functions of the chain and the on-chain Equihash
  check are function parameters about which nothing is assumed; `Digest.LeafDigest` is the value
  the first of them has in the program. The upstream
  `is_valid_solution` used by the solver is a parameter constrained to be the verifier of the Zcash
  definition on packed index lists.
- `Outcome` is a call that may panic: in a round by slicing past the end of a hash, before the
  first one by a 32-bit shift of 32 or more (`cbits >= 31`; `Cargo.toml:33` turns overflow checks
  on), in the setup of a digest of length 0 (`n > 512`, where no leaf fits). No method requires
  these away.
- `ScaleTarget` models a build without debug assertions, so without the one on the denominator.
- A missed search in `Race` includes a failed device call of the GPU miner.
- Base64's alphabet is modelled by its character codes; `CharsetSpelled` gives it as text.
- Some lemmas and methods take the function they are about as a ghost parameter (`e`, `g`, `add`,
  `rot`, `d`, `num`); the members that callers use fix it.

Where comments in the repository and its code disagree, the model follows the code:

- `programs/equium/src/round.rs:3-5` says halving and retargeting are deferred; lines 73-101 do both.
- `programs/equium/src/schedule.rs:12-14` speaks of about 30 halvings before the reward is zero; it
  is zero after 25.
- `programs/equium/src/instructions/mine.rs:5-9` describes a supply gate; it can never fire.
- `crates/equihash-core/src/target.rs:66-69` announces an overflow cap; with a positive denominator
  that test never fires (`Target.OverflowTest`), and the later one on the top quotient digit does
  the capping.
- `clients/gpu-miner/src/shader_ref.rs:296-299` promises the CPU's output set; that holds exactly
  when every row that finds its bucket full shares an index with each earlier row of the bucket
  (`ShaderRef.RoundKernel`). At most 16 rows in every bucket suffice, and are not necessary.
- `clients/gpu-miner/src/main.rs:606-608` expects two pipelines to find the same solutions; each finds
  those that its own order of rows does not drop (`Wagner.ZeroHashesLeft`), so this holds without
  crowded buckets (`Wagner.OrdersAgree`); with one, a round already depends on the order
  (`Overflow.OrderMatters`).
- `clients/cli-miner/src/main.rs:476-477` calls the send best-effort; with the channel full and the
  receiver gone to the join it blocks for ever.
- `clients/website/src/lib/rpc.ts:583-584` says the cursor is the oldest returned block; with no
  block on the page it is the oldest scanned signature, or null.
- `scripts/indexer.ts:235-236` calls the writes idempotent; the increments are not.

## Model

| member | source | states |
|---|---|---|
| Equihash.SpecTreeIsFlat | crates/equihash-core/src/solver.rs:99-113 | The recursive tree condition (halves ordered by first index, disjoint, colliding at every level) is the flat definition of a Wagner-bound solution. |
| Solver.FirstCbitsAgree | crates/equihash-core/src/solver.rs:68-79 | The byte-and-mask comparison holds exactly when the first cbits bits agree, for every cbits and all hashes that hold them. |
| Solver.CompareAborts | crates/equihash-core/src/solver.rs:68-79 | Comparing two hashes of one length panics exactly when they lack one of the whole bytes, or only the last part of a byte and are otherwise equal. |
| Solver.EmitSymmetric | crates/equihash-core/src/solver.rs:129-146 | What a pair emits does not depend on which row comes first, so any tie order of the sort gives the same results. |
| Solver.CollisionIsTree | crates/equihash-core/src/solver.rs:126-134 | Two tree rows collide exactly when their index lists are the halves of a tree one level up. |
| Solver.CombinedRow | crates/equihash-core/src/solver.rs:136-145 | XOR, trim and canonical concatenation of two tree rows is the row of the joined tree: its hash is the XOR of all its leaves without the trimmed bytes. |
| Solver.EmitCount | crates/equihash-core/src/solver.rs:129-146 | A tree comes from the unordered pair of its two halves and from no other pair of rows. |
| Solver.RoundKeepsExact | crates/equihash-core/src/solver.rs:117-151 | If the rows are all trees of height r, each exactly once, and no two of them fail to compare, then the emitted pairs are all trees of height r + 1, each exactly once. |
| Solver.ShortHashNoTree | crates/equihash-core/src/solver.rs:117-151 | Once hashes are too short for another round, rows that can all be compared have no trees above them: the rounds die out instead of going wrong. |
| Rounds.SortByHash | crates/equihash-core/src/solver.rs:119-120 | The sort returns a permutation of the rows in lexicographic hash order. |
| Rounds.LexMeans | crates/equihash-core/src/solver.rs:119-120 | The order is that of the first differing byte, most significant first; without one the shorter string comes first. |
| Rounds.DistinctIndices | crates/equihash-core/src/solver.rs:88-97 | The nested scan answers exactly whether two index lists are disjoint. |
| Rounds.GroupEnd | crates/equihash-core/src/solver.rs:125-128 | The scan panics exactly when it must compare row i with a row beyond its bytes; otherwise it stops exactly behind the rows of the sorted list that share the first cbits bits with row i. |
| Rounds.PairGroup | crates/equihash-core/src/solver.rs:129-147 | The double loop over a group emits each index-disjoint pair of the group once. |
| Rounds.Round | crates/equihash-core/src/solver.rs:117-151 | For every input of one hash length, the round panics exactly when two of its rows cannot be compared, whatever the sort puts between them; otherwise the output is as a multiset one result for each unordered pair of rows that agree on cbits bits and share no index, and nothing else. |
| BitPacking.CompressIndices | crates/equihash-core/src/solver.rs:153-169 | The packed form has ceil(bits_per * len / 8) bytes, holds the indices most significant bit first in order, and its padding bits are zero. |
| BitPacking.PackIndex | clients/web-miner/wasm/src/lib.rs:124-132 | The inner loop appends the bits of one index at the running position and changes no other bit. |
| BitPacking.UnpackPacked | clients/gpu-miner/src/main.rs:1021-1037 | Big-endian unpacking recovers any list of indices below 2^bits_per. |
| BitPacking.HoldsUnique | clients/web-miner/wasm/src/lib.rs:117-134 | A byte string is determined by its length and the bits it holds. |
| BitPacking.PackedIffEqual | clients/web-miner/wasm/src/lib.rs:114-134 | Packed forms of two lists of one length, from whichever copy of the packer, are equal exactly when the lists are. |
| BitPacking.CompressIndices965 | clients/gpu-miner/src/main.rs:1018-1037 | The (96, 5) copy packs 32 indices into 68 bytes, in the same form. |
| Search.TreeShape | crates/equihash-core/src/solver.rs:88-113 | A row after r rounds holds 2^r distinct indices in range with the least one first; the length test before the zero filter never skips a row. |
| Search.TrimmedIsZero | crates/equihash-core/src/solver.rs:136-141 | For byte-aligned widths every byte trimmed off a surviving row is zero in the XOR of its leaves. |
| Search.InitialExact | crates/equihash-core/src/solver.rs:230-235 | The initial rows are the trees of height zero, each once. |
| Search.ExactRowsAbort | crates/equihash-core/src/solver.rs:117-128 | Over the rows of all trees of a height a round panics exactly when some two different trees cannot be compared, a condition on the leaves alone. |
| Search.FitsNeverAborts | crates/equihash-core/src/solver.rs:68-79 | Parameters whose hashes hold the trimmed bytes of all k rounds never panic in a round, on any table. |
| Search.RunRounds | crates/equihash-core/src/solver.rs:237-242 | For every accepted pair: the loop panics exactly on the tables where some two trees of a height below k cannot be compared; otherwise, early exit included, the rows are exactly all trees of height k. |
| Search.ZeroFilter | crates/equihash-core/src/solver.rs:249-251 | A tree row passes the all-zero test exactly when the remaining bits of the XOR are zero. |
| Search.PackedIsValid | crates/equihash-core/src/solver.rs:252-253 | The verifier accepts a packed candidate exactly when the unpacked list is a solution. |
| Search.SearchLeaves | crates/equihash-core/src/solver.rs:230-257 | For every accepted pair: the search panics exactly when a round does; otherwise it returns a packed solution it finds, or nothing only when none of the lists it finds is a solution. |
| Search.FindsExactlySolutions | crates/equihash-core/src/solver.rs:117-151 | For byte-aligned cbits the lists that pass rounds and zero filter are exactly the Equihash solutions; the slices always fit. |
| Search.AlignedAnswer | crates/equihash-core/src/solver.rs:213-258 | For byte-aligned cbits the search answers exactly when a solution exists, and with a valid one. |
| Search.AlignedNeverAborts | crates/equihash-core/src/solver.rs:68-79 | For byte-aligned cbits no round panics, on any table. |
| Search.TryNonceWithLeaves | crates/equihash-core/src/solver.rs:213-258 | Parameters that are zero, with n no multiple of 8 or of k + 1, or with n <= k, give nothing, an overflowing shift panics, a short buffer gives nothing; otherwise the outcome is that of the search over the buffer's leaves. |
| Search.LeafOfBuffer | crates/equihash-core/src/solver.rs:204-207 | Leaf i of a packed buffer starts at byte i times the leaf size. |
| Search.LeafInside | crates/equihash-core/src/solver.rs:58-66 | The slice of a leaf lies inside the digest of its call. |
| Search.TryNonce | crates/equihash-core/src/solver.rs:266-305 | The outcome is that of the search over the leaves generated for the nonce, or a panic when the shift overflows. |
| Search.Solve | crates/equihash-core/src/solver.rs:313-331 | The driver returns the answer of the first nonce that has one, an error exactly for bad parameters, no solution only when every nonce handed out had none, and panics for n > 512 or at the first nonce whose search does. |
| Alignment.FindsAllIff | crates/equihash-core/src/solver.rs:117-141 | For every accepted pair: on every table that has a solution the search does not panic and finds the solution, exactly when cbits < 31 and cbits is a multiple of 8 or k is 1, or when k exceeds cbits + 1 (no table has a solution then). |
| Alignment.NeverPanicsIff | crates/equihash-core/src/solver.rs:68-79 | For every accepted pair: no table, with a solution or without, makes the search panic exactly when cbits < 31 and the hashes hold the bytes trimmed by all k rounds, or by the first cbits + 2, after which no two trees exist. |
| Alignment.FindsAllAndPanics | crates/equihash-core/src/solver.rs:68-79 | Equihash (8, 7) is accepted and misses no solution, but panics on four zero leaves. |
| Alignment.MissedSolution | crates/equihash-core/src/solver.rs:118-141 | For every accepted pair with unaligned cbits and 3 <= k <= cbits + 1 there is a table with a solution the rounds drop or panic over, because they trim whole bytes but compare cbits bits. |
| Alignment.ZeroTableAborts | crates/equihash-core/src/solver.rs:68-79 | Where the shift overflows or the hashes are too short for k rounds, zero leaves have a solution and the search panics. |
| Alignment.Missed56 | crates/equihash-core/src/solver.rs:118-141 | Equihash (56, 3) is accepted and misses a solution. |
| ShaderRef.DistinctIndicesKernel | clients/gpu-miner/src/shader_ref.rs:244-255 | The scan over live prefixes answers exactly whether they are disjoint. |
| ShaderRef.ClaimSlot | clients/gpu-miner/src/shader_ref.rs:304-311 | A row takes the next slot of its bucket while fewer than 16 are taken; the count always grows. |
| ShaderRef.KeptIff | clients/gpu-miner/src/shader_ref.rs:304-311 | A row keeps its slot exactly when fewer than 16 earlier rows lie in its bucket. |
| ShaderRef.FillSlots | clients/gpu-miner/src/shader_ref.rs:301-311 | After the first pass each bucket's slots hold its first 16 rows in order and its count is complete. |
| ShaderRef.ScanRow | clients/gpu-miner/src/shader_ref.rs:316-334 | A row emits, in slot order, one result for each later index-disjoint row found in its bucket's slots. |
| ShaderRef.EmitPairs | clients/gpu-miner/src/shader_ref.rs:313-337 | The double loop gives, row by row, what each row finds in its slots; over slots filled in any order these are the pairs of surviving rows. |
| ShaderRef.AnySlotOrder | clients/gpu-miner/src/shader_ref.rs:296-299 | Whatever order each bucket's slots are filled in, the results are as a multiset those of all pairs of surviving rows. |
| ShaderRef.RoundInOrder | clients/gpu-miner/src/shader_ref.rs:313-337 | The results of a round are, in order of the first row and then of the second, those of all pairs of index-disjoint rows of one bucket neither of which has 16 rows of the bucket before it. |
| ShaderRef.RoundKernel | clients/gpu-miner/src/shader_ref.rs:300-337 | A row is dropped exactly when 16 earlier rows lie in its bucket. The pairs of the other rows come out, each once, in order of first and second row. They are a sub-multiset of all pairs, and all pairs exactly when each dropped row shares an index with every earlier row of its bucket, as holds when no row is dropped. Never more than 15n/2 rows. |
| ShaderRef.SurvivorsPart | clients/gpu-miner/src/shader_ref.rs:288-299 | Dropping rows beyond the cap leaves a sub-multiset of the results, the full one exactly when every dropped row shares an index with all earlier rows of its bucket. |
| Buckets.KeptIsPart | clients/gpu-miner/src/shader_ref.rs:308-310 | Dropping rows beyond the cap leaves a sub-multiset of the rows. |
| Buckets.KeptBagPart | clients/gpu-miner/src/shader_ref.rs:304-334 | For any emission within buckets: the pairs of kept rows are a sub-multiset of all pairs, equal exactly when no dropped row emits anything with an earlier one. |
| Buckets.ScanPermutation | clients/gpu-miner/src/shader_ref.rs:288-299 | Scanning the slots of a bucket in another order gives the same multiset. |
| Buckets.RoundBound | clients/gpu-miner/src/shader_ref.rs:288-299 | With at most 16 rows in a bucket, the pairs within buckets number at most 15/2 for each row. |
| GpuPipeline.XorAndTrimBytes | clients/gpu-miner/src/shader_ref.rs:257-271 | Word-wise XOR and shift on packed words is byte-wise XOR with two bytes cut off and zeros shifted in, for every live length. |
| GpuPipeline.SameBucket | clients/gpu-miner/src/shader_ref.rs:234-239 | Two packed hashes share a bucket exactly when their first 16 bits agree. |
| GpuPipeline.EmbedEmit | clients/gpu-miner/src/shader_ref.rs:321-334 | A packed pair emits the packed form of what the solver's pair emits, and nothing when that emits nothing. |
| GpuPipeline.RoundsAgree | clients/gpu-miner/src/shader_ref.rs:288-299 | For any rows, the pairs of their packed forms give every result of a solver round equally often. |
| GpuPipeline.EmitsPacked | clients/gpu-miner/src/shader_ref.rs:273-286 | Everything a packed round emits is the packed form of some solver row of the next shape. |
| GpuPipeline.SufficeMeansFit | clients/gpu-miner/src/shader_ref.rs:190-195 | A bucket overflows only if more than 16 distinct trees of that height share it, a condition on the leaves alone. |
| GpuPipeline.KernelOnTrees | clients/gpu-miner/src/shader_ref.rs:350-354 | A kernel round over any trees gives trees, each at most once, and a tree exactly when both its halves took part. |
| GpuPipeline.ZeroHashIsSolution | clients/gpu-miner/src/shader_ref.rs:356-359 | After five rounds a tree row has hash [0,0,0] exactly when its indices are an Equihash (96, 5) solution. |
| Wagner.InTraceIff | clients/gpu-miner/src/shader_ref.rs:304-311 | After r rounds, with the rows of each round in any order, a tree is there exactly when no subtree of it found its bucket full. |
| Wagner.ZeroHashesLeft | clients/gpu-miner/src/shader_ref.rs:344-360 | For any order of the rows, those with a zero hash after five rounds are exactly the solutions none of whose subtrees found its bucket full, each once. |
| Wagner.OrdersAgree | clients/gpu-miner/src/main.rs:602-608 | When no more than 16 trees of a height share a bucket, two runs with different row orders find the same solutions. |
| Wagner.LeavesKept | clients/gpu-miner/src/shader_ref.rs:304-311 | A tree that comes through uses only leaves among the first 16 of their bucket. |
| Wagner.WagnerFull | clients/gpu-miner/src/shader_ref.rs:344-360 | For every buffer: returned are exactly the solutions none of whose subtrees found its bucket full, each once, a condition on the leaves alone; they use only leaves that found a slot in the first round, and are all solutions when no more than 16 trees of a height share a bucket. |
| Overflow.SeventeenRowsLose | clients/gpu-miner/src/shader_ref.rs:296-299 | Seventeen rows with zero hashes and different indices: the kernel emits fewer results than the solver. |
| Overflow.SixteenRowsKeep | clients/gpu-miner/src/shader_ref.rs:308-310 | Sixteen rows with zero hashes, whatever their indices, lose nothing: every pair of index-disjoint rows comes out. |
| Overflow.SeventeenRowsKeep | clients/gpu-miner/src/shader_ref.rs:296-299 | Seventeen rows of one bucket that share their index: the bucket overflows and nothing is lost. |
| Overflow.OrderMatters | clients/gpu-miner/src/shader_ref.rs:296-299 | Seventeen rows of one bucket and the same rows in reverse give different results. |
| Overflow.ZeroBufferFindsNothing | clients/gpu-miner/src/shader_ref.rs:340-359 | A buffer of 384 zero bytes has the solution 0 to 31, and the pipeline returns nothing. |
| EndToEnd.ReferenceSearch | clients/gpu-miner/src/main.rs:626-628 | The reference run over all 131072 leaves of an input and a nonce returns exactly the solutions of the Equihash (96, 5) table of that nonce that no bucket drops. |
| EndToEnd.AgainstSolver | crates/equihash-core/src/solver.rs:266-305 | Over the same table the solver does not panic; the pipeline returns a row exactly when some solution is dropped by no bucket, and then the solver answers too; the solver's answer is among the rows exactly when none of its subtrees was dropped. |
| Target.HashUnderTarget | crates/equihash-core/src/target.rs:8-18 | The scan answers whether the hash is the smaller 256-bit number. |
| Target.MultiplyLimbs | crates/equihash-core/src/target.rs:35-64 | The five limbs hold the exact product in 64-bit digits, no intermediate leaves 128 bits, and the top limb is below the factor. |
| Target.OverflowTest | crates/equihash-core/src/target.rs:66-69 | The test for overflow before the division is true exactly when the denominator is zero. |
| Target.PropagateCarries | crates/equihash-core/src/target.rs:59-64 | Carrying keeps the represented number and makes every limb a 64-bit digit. |
| Target.DivideLimbs | crates/equihash-core/src/target.rs:71-78 | Long division gives the exact quotient, and each digit fits 64 bits. |
| Target.ScaleTarget | crates/equihash-core/src/target.rs:26-90 | For every target and factor the result is min(floor(old * num / den), 2^256 - 1); for a zero denominator it is the maximum, or the target itself when both are zero. |
| Target.ZeroTarget | crates/equihash-core/src/target.rs:8-18 | A byte string has value zero exactly when all its bytes are zero. |
| Schedule.RewardPaid | programs/equium/src/schedule.rs:15-21 | A height pays exactly when it is below 25 * 378000. |
| Schedule.RewardIs | programs/equium/src/schedule.rs:15-21 | At every height the reward is floor(25000000 / 2^(height / 378000)). |
| Schedule.RewardStep | programs/equium/src/round.rs:91-95 | Halving a stored reward at boundaries keeps it equal to the formula by height. |
| Schedule.HalvingSumTotal | programs/equium/src/schedule.rs:20-20 | Halving a number until it is gone adds up to twice the number less its set bits. |
| Schedule.WholeSchedule | programs/equium/src/state.rs:23-29 | All rewards of all heights sum to 378000 * (2 * 25000000 - 12), 4536000 units less than the vault is given. |
| Schedule.NextTarget | programs/equium/src/schedule.rs:38-67 | For every u64 elapsed time, saturating products included, the result is min(floor(old * clamp(actual, 1800, 7200) / 3600), 2^256 - 1). |
| Schedule.NextMonotone | programs/equium/src/schedule.rs:34-37 | The next target is monotone in the old target and in the elapsed time. |
| Schedule.NextWithinTwo | programs/equium/src/schedule.rs:34-37 | One retarget moves the target by at most a factor of two and keeps it in 256 bits. |
| Schedule.RetargetRun | programs/equium/src/schedule.rs:38-67 | Over any m retargets floor(T0 / 2^m) <= Tm <= T0 * 2^m, within 256 bits. |
| Schedule.ZeroStays | programs/equium/src/schedule.rs:38-67 | A zero target stays zero through any retargets. |
| Program.RoundTracks | programs/equium/src/round.rs:45-103 | Closing a round, mined or empty, at a boundary or not, keeps all tracked config fields equal to closed forms of the history. |
| Program.OverflowsWhen | programs/equium/src/round.rs:45-95 | In reachable configs a checked addition of the round transition fails exactly at one height at the end of the 64-bit range. |
| Program.RoundsAddUp | programs/equium/src/round.rs:58-71 | Height is mined plus empty rounds, and mined plus skipped rewards are the schedule up to the height. |
| Program.SupplyBound | programs/equium/src/instructions/mine.rs:46-53 | No history pays more than the schedule, below the supply cap, also after one more reward. |
| Program.StepKeepsInv | programs/equium/src/instructions/mine.rs:20-98 | Every successful instruction, or outside deposit, keeps the invariant. |
| Program.ReachableInv | programs/equium/src/state.rs:53-99 | In every state reachable by any sequence of attempted steps each config field, the vault and the timing are what the history says. |
| Outcomes.RoundOutcome | programs/equium/src/round.rs:45-103 | Every field after a round is closed, in literal numbers: height, challenge, opening clock, target and its next boundary at multiples of 60, reward and its next boundary at multiples of 378000, and all the others unchanged. |
| Outcomes.MineRecords | programs/equium/src/instructions/mine.rs:57-98 | A successful mine step records its miner, clock and slot hash: the history gains that entry, the last winner is the miner, the next challenge is derived from the current one, the miner and the slot hash, the round opens at the clock, and the reward moves. |
| Outcomes.SkipRecords | programs/equium/src/instructions/advance_empty_round.rs:28-47 | A skipped round records its clock and slot hash, leaves the last winner, pays nothing, counts one empty round, and puts the default key into the next challenge. |
| Outcomes.RunLog | programs/equium/src/instructions/mine.rs:80-98 | After any run of attempts the history is, in order, the events of the steps that succeeded, read off the steps. |
| Outcomes.FundOutcome | programs/equium/src/instructions/fund_vault.rs:19-61 | Funding succeeds exactly for the admin, once, with 18.9 million tokens at hand; then mining is open, the vault has them, and the three clocks are anchored. Otherwise the first failed check is reported. |
| Outcomes.SetTargetOutcome | programs/equium/src/instructions/set_target.rs:13-28 | The target is set exactly for the admin who has not renounced, and nothing else changes. |
| Outcomes.RenounceOutcome | programs/equium/src/instructions/renounce_admin.rs:8-14 | Renouncing succeeds exactly for the admin, once; the key is cleared and nothing else changes. |
| Outcomes.InitializeOutcome | programs/equium/src/instructions/initialize.rs:15-63 | Every field after initialize: the given target, admin and clock, the genesis challenge of the slot, a reward of 25000000, boundaries at 378000 and 60, everything else zero, mining closed. |
| Ledger.LedgerIdentity | programs/equium/src/instructions/fund_vault.rs:19-46 | After funding, the vault less outside deposits is the deposit less what was mined, which is dust, rewards of skipped rounds and the rest of the schedule. |
| Ledger.MineOutcome | programs/equium/src/instructions/mine.rs:28-75 | An acceptable submission is paid the scheduled reward exactly below height 9450000 and fails with RewardZeroed from there on; supply gate, vault balance and overflow checks never stop it. Mining not open, an invalid solution, a hash not below the target and a missing slot hash are reported exactly when they are the first check that fails. |
| Ledger.SkipOutcome | programs/equium/src/instructions/advance_empty_round.rs:16-33 | A round can be skipped exactly when mining is open, 150 slots have passed since it opened, a slot hash is there, and the height is not the last possible boundary; each refusal is reported exactly when its check is the first that fails. |
| Ledger.TargetBetween | programs/equium/src/round.rs:73-82 | Between two settings by the admin the target is the retargets over the measured windows, applied in turn. |
| Ledger.TargetRange | programs/equium/src/round.rs:73-82 | Over m retargets without the admin the stored target stays within a factor of 2^m. |
| Ledger.ZeroTargetStops | crates/equihash-core/src/target.rs:8-18 | With a zero target no mine step succeeds, and only set_target can change it. |
| Ledger.RenouncedForever | programs/equium/src/instructions/renounce_admin.rs:8-14 | After renouncing no later step sets the target, and the admin key stays cleared. |
| Ledger.EmptyRoundsTakeTime | programs/equium/src/instructions/advance_empty_round.rs:18-26 | Under a monotone clock 150 slots times the empty rounds fit between funding and the opening of the current round. |
| Ledger.WindowsCoverTime | programs/equium/src/round.rs:73-79 | Under a monotone clock the elapsed seconds of all retargets sum to the time from funding to the last retarget. |
| Ledger.ReachableLedger | programs/equium/src/instructions/mine.rs:44-75 | Reward, supply, ledger and timing results for every reachable state. |
| OnChain.EquiumConfig.Retarget | programs/equium/src/round.rs:73-89 | The field-by-field retarget block yields the target with the clamped value, or reports overflow. |
| OnChain.EquiumConfig.Halve | programs/equium/src/round.rs:91-101 | The halving block halves the reward and moves the next boundary, or reports overflow. |
| OnChain.EquiumConfig.AdvanceRound | programs/equium/src/round.rs:32-104 | The assignments compute the specified next config or the specified error. |
| OnChain.EquiumProgram.Initialize | programs/equium/src/instructions/initialize.rs:15-63 | The constructor sets the specified initial state, each field of it spelled out, which is valid. |
| OnChain.EquiumProgram.VerifySubmission | programs/equium/src/pow.rs:42-58 | A submission is refused exactly when the Equihash check fails or the hash is not below the target, in that order. |
| OnChain.EquiumProgram.CheckMine | programs/equium/src/instructions/mine.rs:28-55 | The refusals of a mine step before any change, in order: closed, check failed, above target, reward zero, sum overflow, supply exhausted, vault short. |
| OnChain.EquiumProgram.FundVault | programs/equium/src/instructions/fund_vault.rs:15-61 | Funding succeeds exactly for the admin, once, with the whole deposit at hand; then it opens mining, moves the deposit and re-anchors the clocks. Otherwise nothing changes. |
| OnChain.EquiumProgram.Mine | programs/equium/src/instructions/mine.rs:20-98 | A mine step is exactly the specified transition: it records its own miner, clock and slot hash in the config and the history and pays the scheduled reward of the height, or fails with the specified error and changes nothing; validity is kept. |
| OnChain.EquiumProgram.AdvanceEmptyRound | programs/equium/src/instructions/advance_empty_round.rs:12-47 | The timeout step is exactly the specified transition, recorded with its clock and slot hash and without a winner, or changes nothing. |
| OnChain.EquiumProgram.SetTarget | programs/equium/src/instructions/set_target.rs:13-28 | The override succeeds exactly for the admin who has not renounced and is exactly the specified transition; otherwise nothing changes. |
| OnChain.EquiumProgram.RenounceAdmin | programs/equium/src/instructions/renounce_admin.rs:8-14 | The admin is dropped once, by the admin, or nothing changes. |
| Race.StepKeepsInv | clients/cli-miner/src/main.rs:457-494 | Every atomic action keeps the protocol invariant: messages are winners, threads that reached the send are in it, in the channel or received, and the total is the tries of finished threads. |
| Race.ReturnIsSound | clients/gpu-miner/src/main.rs:956-976 | In every interleaving a returned winner is a search result under the target, and the count is the sum of all tries, at most threads times budget. |
| Race.StopIsFinal | clients/cli-miner/src/main.rs:468-468 | Once the stop flag is up it stays up, and no continuation draws another nonce: the tries of all threads stay what they were. |
| Race.CountedAtStop | clients/gpu-miner/src/main.rs:943-979 | The count returned is the number of nonces drawn before the stop flag went up. |
| Race.FlagEndsSearch | clients/cli-miner/src/main.rs:468-494 | For every budget of at least one: a run of two threads in which one has lost its first try when the other wins, goes home at the flag, and the winner is returned with count 2. |
| Race.WinnerWasDrawn | clients/cli-miner/src/main.rs:469-481 | The nonce of the winner is one that a thread drew in the run. |
| Race.SentIsReceived | clients/cli-miner/src/main.rs:478-492 | A winner that was sent is not passed over: in every continuation it stays in the channel until the receive takes it. |
| Race.GivesUpAtBudget | clients/cli-miner/src/main.rs:468-499 | Without a timeout the race returns no winner only after every thread has used up its budget: the count is threads times budget. |
| Race.RunsAreFinite | clients/cli-miner/src/main.rs:470-490 | No schedule takes more than threads * (2 * max + 5) + 3 steps. |
| Race.RunsEnd | clients/cli-miner/src/main.rs:486-499 | A run that can go no further has returned with all threads joined exactly when at most two threads reached the send, or at most one if the receive timed out. |
| Race.CanHalt | clients/cli-miner/src/main.rs:457-499 | Every reachable state can run on to a state that goes no further, without a timeout. |
| Race.AlwaysReturnsIff | clients/cli-miner/src/main.rs:470-499 | Every run that can go no further has returned if and only if there is at most one thread, or no budget, or no winning nonce. |
| Race.AlwaysReturnsInTimeIff | clients/cli-miner/src/main.rs:470-499 | Without a timeout, every run that can go no further has returned if and only if there are at most two threads, or no budget, or no winning nonce. |
| Race.ThreeNeverReturn | clients/cli-miner/src/main.rs:478-494 | Once three threads have reached the send no continuation returns. |
| Race.ThreeCanBlock | clients/cli-miner/src/main.rs:478-494 | With three threads a run without a timeout exists that blocks: one winner received, one in the channel, one thread blocked, the join waiting for ever. |
| Race.TwoCanBlock | clients/cli-miner/src/main.rs:478-494 | With two threads or more a run exists in which the receive times out, one thread blocks at the full channel, and the join waits for ever. |
| History.OlderStable | clients/website/src/lib/rpc.ts:610-612 | New signatures arrive in front, so what a cursor sees behind it never changes. |
| History.MinedShows | clients/website/src/lib/rpc.ts:627-642 | The blocks of a stretch of history show, in order, its successful entries with a mined-block line, all of them and no others, with signature, height, winner, reward and time of the entry. |
| Pagination.PushBatch | clients/website/src/lib/rpc.ts:619-642 | One batch contributes its mined blocks in order until the page is full. |
| Pagination.ScanSignatures | clients/website/src/lib/rpc.ts:618-644 | The nested loops append the mined blocks of the list, cut at the page size. |
| Pagination.FetchBlocksPage | clients/website/src/lib/rpc.ts:586-661 | The page shows, field by field and newest first, the successful entries with a mined-block line among the next 1000 signatures of the history at the call, up to the page size, however the chain grows between the batches, with the exact cursor: last block, oldest scanned signature, or null when no more than 800 are left and none is mined. |
| Pagination.PageStep | clients/website/src/lib/rpc.ts:651-661 | A page and what lies behind its cursor are together all mined blocks behind the start, fewer signatures remain, and null means nothing is left. |
| Pagination.WalkCollectsAll | clients/website/src/lib/rpc.ts:577-585 | Following the cursors from any start to null yields every mined block behind it exactly once, newest first, for any page sizes and any growth of the chain between calls. |
| Pagination.WalkShowsAll | clients/website/src/lib/rpc.ts:577-661 | The pages of a walk together show every successful entry with a mined-block line behind the start, in order and field by field. |
| Pagination.WalkIsShort | clients/website/src/lib/rpc.ts:603-609 | The number of calls is at most one more than the signatures behind the start. |
| Pagination.WalkEnds | clients/website/src/lib/rpc.ts:598-609 | From every start and for every page size at least one, following the cursors does reach null. |
| Aggregates.FoldAccountsFor | scripts/indexer.ts:238-243 | Indexing blocks in any order adds exactly their number and rewards to each miner's totals, and ranks equal counts. |
| Aggregates.FoldLastHeight | scripts/indexer.ts:242-242 | The stored last height is that of the last block indexed, whatever its height. |
| Aggregates.RecordsIff | scripts/indexer.ts:238-243 | The totals account for the blocks of a history exactly when they hold, for every miner, the number and the summed rewards of the log lines of successful entries that name the miner. |
| Indexer.Index.IndexBlock | scripts/indexer.ts:238-254 | One block updates the four hashes as the fold step does. |
| Indexer.Index.ProcessSigs | scripts/indexer.ts:319-351 | For every batch size the list is indexed oldest first, each mined block once, and the count is returned; each miner's blocks, rewards and rank grow by what the log lines of the list say. |
| Indexer.Index.FullBackfill | scripts/indexer.ts:368-408 | The totals become the fold over all pages of the history as it was at the first call, one page for each thousand signatures begun, and its newest signature becomes the cursor, even if the chain grows meanwhile. |
| Indexer.Index.Tick | scripts/indexer.ts:431-448 | A tick folds in the newest thousand signatures in front of the cursor and moves the cursor to the newest. |
| Indexer.BackfillFaithful | scripts/indexer.ts:368-408 | After a backfill of an empty store, also over an empty history, per-miner counts, rewards and ranks are exactly the counts and sums over the log lines of the whole history. |
| Indexer.TickFaithfulIff | scripts/indexer.ts:431-448 | From any cursor, none included, a tick keeps the totals exact if and only if the signatures beyond the thousand newest hold no mined block. |
| Indexer.TickCanLose | scripts/indexer.ts:438-446 | A history of distinct signatures and a cursor in it, with exact totals, after which a tick leaves the totals without a block the cursor has passed. |
| Indexer.TicksFaithfulIff | scripts/indexer.ts:431-448 | After any number of ticks over a growing chain, however many signatures each finds, the totals are exactly those of the latest history if and only if no tick of the run skipped a mined block: a block once skipped is lost for good. |
| Indexer.PacedLosesNone | scripts/indexer.ts:431-448 | A run whose ticks find at most a thousand new signatures each skips nothing. |
| Indexer.IndexFaithfulIff | scripts/indexer.ts:368-448 | The whole life of the index, a backfill of an empty store over any history, the empty one included, and then ticks: the totals are those of the latest history if and only if no tick skipped a mined block. |
| Indexer.LastHeightIff | scripts/indexer.ts:375-398 | After a backfill a miner's last height is the miner's highest block if and only if all the miner's blocks lie within one page. |
| Indexer.LifeHeightIff | scripts/indexer.ts:368-448 | After a backfill and any run of ticks a miner's last height is the miner's highest block if and only if the last tick that found blocks of the miner indexed one of them, or, when no tick found any, all lay within one page of the backfill. |
| Indexer.StaleLastHeight | scripts/indexer.ts:375-398 | A two-page history of distinct signatures and falling heights after which a last height is stale. |
| Words.AddIsSum | clients/gpu-miner/src/shader_ref.rs:15-20 | Pair addition with carry is addition modulo 2^64. |
| Words.XorIsXor | clients/gpu-miner/src/shader_ref.rs:22-24 | Pair XOR is 64-bit XOR. |
| Words.RotrIsRotation | clients/gpu-miner/src/shader_ref.rs:26-40 | Pair rotation is 64-bit rotation for every distance from 1 to 63. |
| Blake2b.StepPairs | clients/gpu-miner/src/shader_ref.rs:84-95 | The eight assignments of the mixing macro are the mixing function's steps on the joined values. |
| Blake2b.Compress | clients/gpu-miner/src/shader_ref.rs:69-110 | The in-place compression is F of section 3.2 of RFC 7693 for every state, block, counter below 2^64 and flag. |
| Blake2b.IvRoots | clients/gpu-miner/src/shader_ref.rs:42-51 | Each word of the initialization vector is the integer part of 2^64 times the fraction of the square root of a prime, 2 to 19 in order. |
| Blake2b.RowsPermute | clients/gpu-miner/src/shader_ref.rs:54-67 | Each row of the schedule takes every message word once. |
| Blake2b.RowsDiffer | clients/gpu-miner/src/shader_ref.rs:54-67 | No two of its ten rows take a word at the same place. |
| KnownAnswer.KnownDigest | clients/gpu-miner/src/shader_ref.rs:69-110 | F gives the BLAKE2b-512 hash of the bytes 0 to 127, a block of sixteen different words, through every intermediate state of its twelve rounds. |
| WordNumbers.XorValue | clients/gpu-miner/src/shader_ref.rs:22-24 | Exclusive or of machine words is that of the numbers they stand for, as F uses it. |
| Digest.StartIsInitial | clients/gpu-miner/src/shader_ref.rs:121-138 | The initial words are the initialization vector combined with the parameter block of section 2.5 of RFC 7693, for every personalization and every length below 256. |
| Digest.MessageInjective | clients/gpu-miner/src/shader_ref.rs:140-150 | No two inputs, nonces and call counters hash the same message. |
| Digest.MessagePlaces | clients/gpu-miner/src/shader_ref.rs:140-150 | The input stands at byte 0 of the message, the nonce at byte 81, the call counter at byte 113, least significant byte first, 117 bytes in all. |
| Digest.PersonalBytes | clients/gpu-miner/src/shader_ref.rs:362-373 | The personalization of (96, 5): ZcashPoW, then 60 00 00 00 and 05 00 00 00. |
| Digest.KernelDigest | clients/gpu-miner/src/shader_ref.rs:112-177 | The kernel's digest is BLAKE2b of section 3.3 of RFC 7693 over input, nonce and counter: little-endian words, one final block, byte count 117, cut to 60 bytes. |
| Digest.LeafBytes | clients/gpu-miner/src/shader_ref.rs:362-383 | The generated buffer holds the leaves the solver generates from the Equihash (96, 5) digest, in order, for any input, nonce and count. |
| Digest.SlotIsLeaf | clients/gpu-miner/src/shader_ref.rs:374-381 | Each slot of a buffer of leaves holds the leaf of its number: the bytes the solver cuts from the digest call it shares with four others. |
| Base64.EncodedLength | clients/desktop-miner/src-tauri/src/keystore.rs:47-67 | The encoding has 4 * ceil(n / 3) characters. |
| Base64.CharsetSpelled | clients/desktop-miner/src-tauri/src/keystore.rs:44-45 | The alphabet: upper case, lower case, digits, plus and slash. |
| Base64.WhitespaceListed | clients/desktop-miner/src-tauri/src/keystore.rs:73-73 | What is skipped as white space: the 25 code points of the Unicode property. |
| Base64.ChunkDigits | clients/desktop-miner/src-tauri/src/keystore.rs:50-64 | The masks and shifts pick the four base-64 digits of the 24-bit group. |
| Base64.Encode | clients/desktop-miner/src-tauri/src/keystore.rs:47-67 | The loop computes the encoding of section 4 of RFC 4648. |
| Base64.TestVectors | clients/desktop-miner/src-tauri/src/keystore.rs:47-67 | The encodings of f, fo, foo and foobar are those of section 10 of RFC 4648. |
| Base64.Decode | clients/desktop-miner/src-tauri/src/keystore.rs:69-96 | The buffer loop computes the group-by-group decoding, skips white space, drops an unfinished group and reports the first character without a code. |
| Base64.CodeIff | clients/desktop-miner/src-tauri/src/keystore.rs:74-80 | A character that is not white space has a code exactly when it is the padding sign, whose code is 255, or its low byte is in the alphabet; the code is that letter's number. |
| Base64.RefusedFirst | clients/desktop-miner/src-tauri/src/keystore.rs:73-80 | The error names the first character that is neither white space nor padding and whose low byte is not in the alphabet. |
| Base64.DecodeFailsIff | clients/desktop-miner/src-tauri/src/keystore.rs:69-96 | Decoding fails exactly when the text holds such a character: wrong lengths and misplaced padding are accepted. |
| Base64.BufferMeans | clients/desktop-miner/src-tauri/src/keystore.rs:84-91 | The one to three bytes of a full buffer in base-64 arithmetic, for every placing of the padding sign in the last two places. |
| Base64.UnpaddedLength | clients/desktop-miner/src-tauri/src/keystore.rs:83-95 | Without padding every four characters give three bytes, and up to three characters at the end are dropped. |
| Base64.DecodeEncode | clients/desktop-miner/src-tauri/src/keystore.rs:69-96 | Decoding recovers the bytes from their encoding with white space inserted anywhere. |
| Base64.RoundTrip | clients/desktop-miner/src-tauri/src/keystore.rs:43-97 | decode(encode(b)) == b for every byte string. |
| RateLimit.Limiter.RateLimit | clients/website/src/app/api/rpc/route.ts:54-65 | A request is admitted exactly when fewer than 1200 kept times are fresh, and the address's list is rewritten accordingly. |
| RateLimit.BucketIsRecent | clients/website/src/app/api/rpc/route.ts:56-63 | Forgetting stale times loses nothing: the kept list agrees with the full record of grants at every later moment. |
| RateLimit.NeverTooMany | clients/website/src/app/api/rpc/route.ts:50-65 | Under a monotone clock no address has more than 1200 admitted requests in any window of 60000 ms, in every run. |
| RateLimit.RefusedIff | clients/website/src/app/api/rpc/route.ts:58-61 | A request is refused exactly when 1200 admitted ones lie in the window ending with it. |
| RateLimit.BucketsBounded | clients/website/src/app/api/rpc/route.ts:54-65 | However the clock runs, no list grows beyond 1200. |

## Left out

- SHA-256, Argon2, AES-GCM, key derivation, challenge hashing, the BLAKE2b library of the CPU solver and the internals of the upstream Equihash verifier: library code, parameters here.
- Digest.KernelDigest: says nothing about digest lengths above 64, which BLAKE2b does not have and no caller uses.
- The three copies of the index packer are one loop; it is modelled once, with the width as a parameter.
- wgpu, CUDA and WebGPU host code: the kernels they call are not part of this model.
- Accounts, seeds, cross-program calls, mint and vault address checks, events and log lines of the program: a token move is atomic and the keys that are only compared are omitted.
- RPC and Redis transport, retries and transport errors: every call succeeds; a cursor the node does not know and a `getTransaction` that returns nothing are not modelled.
- Failures inside indexer batches and restarts between writes: the increments are not idempotent, so totals are stated for fault-free steps.
- The recent-blocks and blocks-by-height sets, last-seen times, state snapshot and the one-time migration of the indexer: write-only records beside the totals.
- The sleep between polls and pages, and the wall clock of the receive timeout: a timeout may happen at any moment the channel is empty.
- The sequential full-GPU race and the wasm bindings around the solver: single-threaded loops over modelled parts.
- Digest quality and expected numbers of solutions: probability.
- Web pages, desktop UI, wallet screens, hashrate estimates, formatting.
- Response caching and the method allow-list of the proxy.
- Indexer.Index.FullBackfill: assumes the history node never reorders or drops signatures while pages are read.
- Race.StepKeepsInv: steps are sequentially consistent; the relaxed atomics of the code carry only a flag and a counter read after the join.
