/**
 The bucket kernel: one Wagner round for (96, 5) in the shape the GPU runs it, on rows
 of three little-endian words and 32 index slots.
 */
module ShaderRef {
  import opened Bags
  import opened Buckets
  import opened Equihash

  const NUM_BUCKETS := 65536
  const INDICES_MAX := 32

  datatype Hash = Hash(w0: bv32, w1: bv32, w2: bv32)

  datatype RawRow = RawRow(hash: Hash, indices: seq<nat>)

  type RowFixed = r: RawRow | |r.indices| == INDICES_MAX
    witness RawRow(Hash(0, 0, 0), seq(INDICES_MAX, _ => 0))

  /** First byte of the hash in the high half, second byte in the low half: 16 bits. */
  function BucketId(w0: bv32): bv16 {
    var b0 := w0 & 0xFF;
    var b1 := (w0 >> 8) & 0xFF;
    ((b0 << 8) | b1) as bv16
  }

  function ExtractBucket(hash: Hash): (bucket: nat)
    ensures bucket < NUM_BUCKETS
  {
    BucketId(hash.w0) as nat
  }

  /** Different ids are different buckets. */
  lemma BucketInjective(a: Hash, b: Hash)
    ensures ExtractBucket(a) == ExtractBucket(b) <==> BucketId(a.w0) == BucketId(b.w0)
  {
    IdRoundTrip(BucketId(a.w0));
    IdRoundTrip(BucketId(b.w0));
  }

  lemma IdRoundTrip(id: bv16)
    ensures (id as nat) as bv16 == id
  {
  }

  method DistinctIndicesKernel(a: RowFixed, b: RowFixed, count: nat) returns (distinct: bool)
    requires count <= INDICES_MAX
    ensures distinct == Disjoint(a.indices[..count], b.indices[..count])
  {
    for i := 0 to count
      invariant forall i', j :: 0 <= i' < i && 0 <= j < count ==> a.indices[i'] != b.indices[j]
    {
      for j := 0 to count
        invariant forall j' :: 0 <= j' < j ==> a.indices[i] != b.indices[j']
      {
        if a.indices[i] == b.indices[j] {
          assert a.indices[..count][i] == b.indices[..count][j];
          return false;
        }
      }
    }
    return true;
  }

  function XorAndTrim(a: Hash, b: Hash): Hash {
    var h0, h1, h2 := a.w0 ^ b.w0, a.w1 ^ b.w1, a.w2 ^ b.w2;
    Hash((h0 >> 16) | (h1 << 16), (h1 >> 16) | (h2 << 16), h2 >> 16)
  }

  function Zeros(n: nat): (z: seq<nat>)
    ensures |z| == n
  {
    seq(n, _ => 0)
  }

  /** The list with the smaller first index goes first; the other slots stay zero. */
  function CanonicalConcat(a: RowFixed, b: RowFixed, count: nat): (out: seq<nat>)
    requires 2 * count <= INDICES_MAX
    ensures |out| == INDICES_MAX
  {
    var first, second := if a.indices[0] < b.indices[0] then a else b, if a.indices[0] < b.indices[0] then b else a;
    first.indices[..count] + second.indices[..count] + Zeros(INDICES_MAX - 2 * count)
  }

  function CombineFixed(a: RowFixed, b: RowFixed, count: nat): RowFixed
    requires 2 * count <= INDICES_MAX
  {
    RawRow(XorAndTrim(a.hash, b.hash), CanonicalConcat(a, b, count))
  }

  // ------------------------------------------------------------------ what a round emits

  ghost function EmitFixed(a: RowFixed, b: RowFixed, count: nat): multiset<RowFixed>
    requires 2 * count <= INDICES_MAX
  {
    if ExtractBucket(a.hash) == ExtractBucket(b.hash) && Disjoint(a.indices[..count], b.indices[..count])
    then multiset{CombineFixed(a, b, count)} else multiset{}
  }

  ghost function EmissionFixed(count: nat): (RowFixed, RowFixed) -> multiset<RowFixed>
    requires 2 * count <= INDICES_MAX
  {
    (a: RowFixed, b: RowFixed) => EmitFixed(a, b, count)
  }

  function RowBucket(row: RowFixed): (bucket: nat)
    ensures bucket < NUM_BUCKETS
  {
    ExtractBucket(row.hash)
  }

  ghost function RowBuckets(rows: seq<RowFixed>): (bs: seq<nat>)
    ensures |bs| == |rows| && forall i :: 0 <= i < |rows| ==> bs[i] == RowBucket(rows[i])
  {
    BucketsOf(rows, RowBucket)
  }

  /** The rows that take part in a round: the first 16 of each bucket. */
  ghost function Survivors(rows: seq<RowFixed>): seq<RowFixed> {
    KeptRows(rows, RowBuckets(rows), 0, |rows|)
  }

  /** Sixteen rows before this one share its bucket. */
  ghost predicate BucketFull(rows: seq<RowFixed>, p: nat)
    requires p < |rows|
  {
    |set q | 0 <= q < p && RowBucket(rows[q]) == RowBucket(rows[p])| >= 16
  }

  /** A row is kept exactly when fewer than sixteen rows before it share its bucket. */
  lemma KeptIff(rows: seq<RowFixed>, p: nat)
    requires p < |rows|
    ensures Kept(RowBuckets(rows), p) <==> !BucketFull(rows, p)
  {
    var bs := RowBuckets(rows);
    PeersCounted(bs, p, bs[p]);
    assert (set q | 0 <= q < p && RowBucket(rows[q]) == RowBucket(rows[p])) == Peers(bs, p, bs[p]);
  }

  lemma AllKeptIff(rows: seq<RowFixed>)
    ensures forall p :: 0 <= p < |rows| ==> (Kept(RowBuckets(rows), p) <==> !BucketFull(rows, p))
  {
    forall p | 0 <= p < |rows| ensures Kept(RowBuckets(rows), p) <==> !BucketFull(rows, p) {
      KeptIff(rows, p);
    }
  }

  // ------------------------------------------------------------------ pass 1

  /** Slots of bucket `b` in use. */
  ghost function SlotList(counts: seq<nat>, slots: seq<nat>, b: nat): seq<nat>
    requires |counts| == NUM_BUCKETS && |slots| == NUM_BUCKETS * MAX_PER_BUCKET && b < NUM_BUCKETS
  {
    var used := if counts[b] <= MAX_PER_BUCKET then counts[b] else MAX_PER_BUCKET;
    slots[b * MAX_PER_BUCKET..b * MAX_PER_BUCKET + used]
  }

  /** The slots of a bucket hold its first 16 rows, in some order; its count is complete. */
  ghost predicate BucketFilled(bs: seq<nat>, m: nat, counts: seq<nat>, slots: seq<nat>, b: nat)
    requires m <= |bs| && |counts| == NUM_BUCKETS && |slots| == NUM_BUCKETS * MAX_PER_BUCKET && b < NUM_BUCKETS
  {
    && counts[b] == |BucketList(bs, m, b)|
    && multiset(SlotList(counts, slots, b)) == multiset(Claimed(bs, m, b))
  }

  ghost predicate SlotsFilled(bs: seq<nat>, m: nat, counts: seq<nat>, slots: seq<nat>) {
    && m <= |bs| && |counts| == NUM_BUCKETS && |slots| == NUM_BUCKETS * MAX_PER_BUCKET
    && forall b :: 0 <= b < NUM_BUCKETS ==> BucketFilled(bs, m, counts, slots, b)
  }

  /** Rows that claim in turn leave the slots in order. */
  ghost predicate BucketOrdered(bs: seq<nat>, m: nat, counts: seq<nat>, slots: seq<nat>, b: nat)
    requires m <= |bs| && |counts| == NUM_BUCKETS && |slots| == NUM_BUCKETS * MAX_PER_BUCKET && b < NUM_BUCKETS
  {
    && counts[b] == |BucketList(bs, m, b)|
    && SlotList(counts, slots, b) == Claimed(bs, m, b)
  }

  ghost predicate SlotsOrdered(bs: seq<nat>, m: nat, counts: seq<nat>, slots: seq<nat>) {
    && m <= |bs| && |counts| == NUM_BUCKETS && |slots| == NUM_BUCKETS * MAX_PER_BUCKET
    && forall b :: 0 <= b < NUM_BUCKETS ==> BucketOrdered(bs, m, counts, slots, b)
  }

  lemma OrderedIsFilled(bs: seq<nat>, m: nat, counts: seq<nat>, slots: seq<nat>)
    requires SlotsOrdered(bs, m, counts, slots)
    ensures SlotsFilled(bs, m, counts, slots)
  {
    forall b | 0 <= b < NUM_BUCKETS ensures BucketFilled(bs, m, counts, slots, b) {
      assert BucketOrdered(bs, m, counts, slots, b);
    }
  }

  lemma SlotClaimed(bs: seq<nat>, m: nat, counts: seq<nat>, slots: seq<nat>, counts': seq<nat>, slots': seq<nat>)
    requires m < |bs| && bs[m] < NUM_BUCKETS && SlotsOrdered(bs, m, counts, slots)
    requires counts' == counts[bs[m] := counts[bs[m]] + 1]
    requires slots' == if counts[bs[m]] < MAX_PER_BUCKET
                       then slots[bs[m] * MAX_PER_BUCKET + counts[bs[m]] := m] else slots
    ensures SlotsOrdered(bs, m + 1, counts', slots')
  {
    var next := m + 1;
    forall b | 0 <= b < NUM_BUCKETS ensures BucketOrdered(bs, next, counts', slots', b) {
      assert BucketOrdered(bs, m, counts, slots, b);
      assert BucketOrdered(bs, m, counts, slots, bs[m]);
      BucketStep(bs, m, counts, slots, counts', slots', b);
    }
  }

  lemma BucketStep(bs: seq<nat>, m: nat, counts: seq<nat>, slots: seq<nat>, counts': seq<nat>, slots': seq<nat>, b: nat)
    requires m < |bs| && |counts| == NUM_BUCKETS && |slots| == NUM_BUCKETS * MAX_PER_BUCKET
    requires bs[m] < NUM_BUCKETS && b < NUM_BUCKETS && BucketOrdered(bs, m, counts, slots, b)
    requires counts' == counts[bs[m] := counts[bs[m]] + 1]
    requires slots' == if counts[bs[m]] < MAX_PER_BUCKET
                       then slots[bs[m] * MAX_PER_BUCKET + counts[bs[m]] := m] else slots
    ensures BucketOrdered(bs, m + 1, counts', slots', b)
  {
    ClaimedStep(bs, m, b);
    SlotListStep(counts, slots, bs[m], m, b, counts', slots');
    var claims := bs[m] == b && counts[b] < MAX_PER_BUCKET;
    if claims {
      assert Claimed(bs, m + 1, b) == Claimed(bs, m, b) + [m];
    } else {
      assert SlotList(counts', slots', b) == SlotList(counts, slots, b);
      assert Claimed(bs, m + 1, b) == Claimed(bs, m, b);
    }
  }

  lemma SlotListStep(counts: seq<nat>, slots: seq<nat>, bucket: nat, m: nat, b: nat, counts': seq<nat>,
      slots': seq<nat>)
    requires |counts| == NUM_BUCKETS && |slots| == NUM_BUCKETS * MAX_PER_BUCKET
    requires bucket < NUM_BUCKETS && b < NUM_BUCKETS
    requires counts' == counts[bucket := counts[bucket] + 1]
    requires slots' == if counts[bucket] < MAX_PER_BUCKET
                       then slots[bucket * MAX_PER_BUCKET + counts[bucket] := m] else slots
    ensures SlotList(counts', slots', b)
         == SlotList(counts, slots, b) + if b == bucket && counts[b] < MAX_PER_BUCKET then [m] else []
  {
  }

  /** A row claims the next slot of its bucket while there is one. */
  method ClaimSlot(counts: array<nat>, slots: array<nat>, bucket: nat, i: nat)
    requires counts != slots && bucket < NUM_BUCKETS
    requires counts.Length == NUM_BUCKETS && slots.Length == NUM_BUCKETS * MAX_PER_BUCKET
    modifies counts, slots
    ensures counts[..] == old(counts[..])[bucket := old(counts[bucket]) + 1]
    ensures slots[..] == if old(counts[bucket]) < MAX_PER_BUCKET
                         then old(slots[..])[bucket * MAX_PER_BUCKET + old(counts[bucket]) := i] else old(slots[..])
  {
    var slot := counts[bucket];
    counts[bucket] := counts[bucket] + 1;
    if slot < MAX_PER_BUCKET {
      slots[bucket * MAX_PER_BUCKET + slot] := i;
    }
  }

  /** Counting sort of the rows into slots. */
  method FillSlots(rows: seq<RowFixed>, counts: array<nat>, slots: array<nat>)
    requires counts != slots
    requires counts.Length == NUM_BUCKETS && slots.Length == NUM_BUCKETS * MAX_PER_BUCKET
    requires forall b :: 0 <= b < NUM_BUCKETS ==> counts[b] == 0
    modifies counts, slots
    ensures SlotsOrdered(RowBuckets(rows), |rows|, counts[..], slots[..])
  {
    ghost var bs := RowBuckets(rows);
    NothingClaimed(bs, counts[..], slots[..]);
    for i := 0 to |rows|
      invariant SlotsOrdered(bs, i, counts[..], slots[..])
    {
      ghost var counts0, slots0 := counts[..], slots[..];
      ClaimSlot(counts, slots, RowBucket(rows[i]), i);
      SlotClaimed(bs, i, counts0, slots0, counts[..], slots[..]);
    }
  }

  lemma NothingClaimed(bs: seq<nat>, counts: seq<nat>, slots: seq<nat>)
    requires |counts| == NUM_BUCKETS && |slots| == NUM_BUCKETS * MAX_PER_BUCKET
    requires forall b :: 0 <= b < NUM_BUCKETS ==> counts[b] == 0
    ensures SlotsOrdered(bs, 0, counts, slots)
  {
    forall b | 0 <= b < NUM_BUCKETS ensures BucketOrdered(bs, 0, counts, slots, b) {
      assert SlotList(counts, slots, b) == Claimed(bs, 0, b);
    }
  }

  // ------------------------------------------------------------------ pass 2

  /** The results of one pair of rows: one if they share no index. */
  function PairResult(rows: seq<RowFixed>, i: nat, j: nat, count: nat): seq<RowFixed>
    requires i < |rows| && j < |rows| && 2 * count <= INDICES_MAX
  {
    if Disjoint(rows[i].indices[..count], rows[j].indices[..count]) then [CombineFixed(rows[i], rows[j], count)] else []
  }

  /** What row `i` emits when it scans the positions `js`, in order: only later positions count. */
  function ScanList(rows: seq<RowFixed>, i: nat, js: seq<nat>, count: nat): seq<RowFixed>
    requires i < |rows| && 2 * count <= INDICES_MAX
  {
    if js == [] then [] else
      var j := js[|js| - 1];
      ScanList(rows, i, js[..|js| - 1], count) + if i < j < |rows| then PairResult(rows, i, j, count) else []
  }

  /** Positions of rows of bucket `b`. */
  ghost predicate PlacesOf(rows: seq<RowFixed>, b: nat, js: seq<nat>) {
    forall t :: 0 <= t < |js| ==> js[t] < |rows| && RowBucket(rows[js[t]]) == b
  }

  lemma {:induction false} ScanListBag(rows: seq<RowFixed>, i: nat, js: seq<nat>, count: nat)
    requires i < |rows| && 2 * count <= INDICES_MAX && PlacesOf(rows, RowBucket(rows[i]), js)
    ensures multiset(ScanList(rows, i, js, count)) == ScanBag(rows, i, js, EmissionFixed(count))
  {
    if js != [] {
      var j, init := js[|js| - 1], js[..|js| - 1];
      ScanListBag(rows, i, init, count);
      assert multiset(PairResult(rows, i, j, count)) == EmissionFixed(count)(rows[i], rows[j]);
    }
  }

  /** Row `i` scans the slots of its bucket and pairs with every later row it finds there. */
  method ScanRow(rows: seq<RowFixed>, i: nat, slots: seq<nat>, base: nat, cnt: nat, count: nat)
    returns (out: seq<RowFixed>)
    requires i < |rows| && 1 <= count && 2 * count <= INDICES_MAX && base + cnt <= |slots|
    requires forall s :: base <= s < base + cnt ==> slots[s] < |rows|
    ensures out == ScanList(rows, i, slots[base..base + cnt], count)
  {
    out := [];
    for s := 0 to cnt
      invariant out == ScanList(rows, i, slots[base..base + s], count)
    {
      var j := slots[base + s];
      ScanNext(rows, i, slots, base, s, count);
      if j <= i {
        continue;
      }
      var paired := PairFixed(rows, i, j, count);
      out := out + paired;
    }
  }

  method PairFixed(rows: seq<RowFixed>, i: nat, j: nat, count: nat) returns (out: seq<RowFixed>)
    requires i < j < |rows| && 1 <= count && 2 * count <= INDICES_MAX
    ensures out == PairResult(rows, i, j, count)
  {
    var distinct := DistinctIndicesKernel(rows[i], rows[j], count);
    out := if distinct then [CombineFixed(rows[i], rows[j], count)] else [];
  }

  lemma ScanNext(rows: seq<RowFixed>, i: nat, slots: seq<nat>, base: nat, s: nat, count: nat)
    requires i < |rows| && base + s < |slots| && slots[base + s] < |rows| && 2 * count <= INDICES_MAX
    ensures ScanList(rows, i, slots[base..base + s + 1], count)
         == ScanList(rows, i, slots[base..base + s], count)
            + if i < slots[base + s] then PairResult(rows, i, slots[base + s], count) else []
  {
    var longer := slots[base..base + s + 1];
    assert longer[|longer| - 1] == slots[base + s] && longer[..|longer| - 1] == slots[base..base + s];
  }

  /** The rows each bucket's slots hold, bucket by bucket. */
  ghost function SlotLists(counts: seq<nat>, slots: seq<nat>): (lists: seq<seq<nat>>)
    requires |counts| == NUM_BUCKETS && |slots| == NUM_BUCKETS * MAX_PER_BUCKET
    ensures |lists| == NUM_BUCKETS && forall b :: 0 <= b < NUM_BUCKETS ==> lists[b] == SlotList(counts, slots, b)
  {
    seq(NUM_BUCKETS, b requires 0 <= b < NUM_BUCKETS => SlotList(counts, slots, b))
  }

  ghost function ClaimedLists(rows: seq<RowFixed>): (lists: seq<seq<nat>>)
    ensures |lists| == NUM_BUCKETS
    ensures forall b :: 0 <= b < NUM_BUCKETS ==> lists[b] == Claimed(RowBuckets(rows), |rows|, b)
  {
    seq(NUM_BUCKETS, b requires 0 <= b < NUM_BUCKETS => Claimed(RowBuckets(rows), |rows|, b))
  }

  /** Every bucket's list holds its first 16 rows, in some order. */
  ghost predicate ListsFilled(rows: seq<RowFixed>, lists: seq<seq<nat>>) {
    && |lists| == NUM_BUCKETS
    && forall b :: 0 <= b < NUM_BUCKETS ==> multiset(lists[b]) == multiset(Claimed(RowBuckets(rows), |rows|, b))
  }

  lemma FilledLists(rows: seq<RowFixed>, counts: seq<nat>, slots: seq<nat>)
    requires SlotsFilled(RowBuckets(rows), |rows|, counts, slots)
    ensures ListsFilled(rows, SlotLists(counts, slots))
  {
    forall b | 0 <= b < NUM_BUCKETS
      ensures multiset(SlotLists(counts, slots)[b]) == multiset(Claimed(RowBuckets(rows), |rows|, b))
    {
      assert BucketFilled(RowBuckets(rows), |rows|, counts, slots, b);
    }
  }

  lemma OrderedLists(rows: seq<RowFixed>, counts: seq<nat>, slots: seq<nat>)
    requires SlotsOrdered(RowBuckets(rows), |rows|, counts, slots)
    ensures SlotLists(counts, slots) == ClaimedLists(rows)
  {
    forall b | 0 <= b < NUM_BUCKETS ensures SlotLists(counts, slots)[b] == ClaimedLists(rows)[b] {
      assert BucketOrdered(RowBuckets(rows), |rows|, counts, slots, b);
    }
  }

  lemma ListPlaces(rows: seq<RowFixed>, lists: seq<seq<nat>>, b: nat)
    requires ListsFilled(rows, lists) && b < NUM_BUCKETS
    ensures PlacesOf(rows, b, lists[b])
  {
    var list := lists[b];
    BucketMembers(RowBuckets(rows), |rows|, b);
    forall t | 0 <= t < |list| ensures list[t] < |rows| && RowBucket(rows[list[t]]) == b {
      var at := IndexOf(Claimed(RowBuckets(rows), |rows|, b), list[t], list);
    }
  }

  /** Row `i` with the slots of its bucket, from pass 1. */
  method ScanBucket(rows: seq<RowFixed>, i: nat, counts: seq<nat>, slots: seq<nat>, count: nat)
    returns (out: seq<RowFixed>)
    requires i < |rows| && 1 <= count && 2 * count <= INDICES_MAX
    requires SlotsFilled(RowBuckets(rows), |rows|, counts, slots)
    ensures out == ScanList(rows, i, SlotLists(counts, slots)[RowBucket(rows[i])], count)
  {
    var bucket := RowBucket(rows[i]);
    var cnt := if counts[bucket] <= MAX_PER_BUCKET then counts[bucket] else MAX_PER_BUCKET;
    var base := bucket * MAX_PER_BUCKET;
    FilledLists(rows, counts, slots);
    ListPlaces(rows, SlotLists(counts, slots), bucket);
    ghost var list := SlotList(counts, slots, bucket);
    assert forall s :: base <= s < base + cnt ==> slots[s] == list[s - base];
    out := ScanRow(rows, i, slots, base, cnt, count);
  }

  /** The results of the first `m` rows. */
  ghost function Results(rows: seq<RowFixed>, lists: seq<seq<nat>>, count: nat, m: nat): seq<RowFixed>
    requires |lists| == NUM_BUCKETS && m <= |rows| && 2 * count <= INDICES_MAX
  {
    if m == 0 then [] else
      Results(rows, lists, count, m - 1) + ScanList(rows, m - 1, lists[RowBucket(rows[m - 1])], count)
  }

  /** Pair emission over slots filled in any order. */
  method EmitPairs(rows: seq<RowFixed>, counts: seq<nat>, slots: seq<nat>, count: nat) returns (out: seq<RowFixed>)
    requires 1 <= count && 2 * count <= INDICES_MAX
    requires SlotsFilled(RowBuckets(rows), |rows|, counts, slots)
    ensures out == Results(rows, SlotLists(counts, slots), count, |rows|)
    ensures multiset(out) == PairBag(Survivors(rows), EmissionFixed(count))
  {
    out := [];
    for i := 0 to |rows|
      invariant out == Results(rows, SlotLists(counts, slots), count, i)
    {
      var emitted := ScanBucket(rows, i, counts, slots, count);
      out := out + emitted;
    }
    FilledLists(rows, counts, slots);
    AnySlotOrder(rows, SlotLists(counts, slots), count);
  }

  /** The pairs of surviving rows from `i` on. */
  ghost function LaterPairs(rows: seq<RowFixed>, i: nat, e: (RowFixed, RowFixed) -> multiset<RowFixed>)
    : multiset<RowFixed>
  {
    PairBag(KeptRows(rows, RowBuckets(rows), i, |rows|), e)
  }

  lemma EmissionFits(rows: seq<RowFixed>, count: nat)
    requires 2 * count <= INDICES_MAX
    ensures OnlyInBucket(rows, RowBuckets(rows), EmissionFixed(count))
  {
  }

  lemma RowStep(rows: seq<RowFixed>, i: nat, list: seq<nat>, e: (RowFixed, RowFixed) -> multiset<RowFixed>)
    requires i < |rows| && OnlyInBucket(rows, RowBuckets(rows), e)
    requires multiset(list) == multiset(Claimed(RowBuckets(rows), |rows|, RowBucket(rows[i])))
    ensures LaterPairs(rows, i, e) == ScanBag(rows, i, list, e) + LaterPairs(rows, i + 1, e)
  {
    var bs := RowBuckets(rows);
    ScanPermutation(rows, i, list, Claimed(bs, |rows|, bs[i]), e);
    ScanClaimed(rows, bs, i, |rows|, e);
    PairBagKept(rows, bs, i, e);
  }

  /** What row `i` adds to the results, as a bag. */
  lemma RowResults(rows: seq<RowFixed>, lists: seq<seq<nat>>, count: nat, i: nat, next: nat)
    requires i < |rows| && next == i + 1 && 2 * count <= INDICES_MAX && ListsFilled(rows, lists)
    ensures LaterPairs(rows, i, EmissionFixed(count))
         == multiset(ScanList(rows, i, lists[RowBucket(rows[i])], count)) + LaterPairs(rows, next, EmissionFixed(count))
  {
    ListPlaces(rows, lists, RowBucket(rows[i]));
    ScanListBag(rows, i, lists[RowBucket(rows[i])], count);
    EmissionFits(rows, count);
    RowStep(rows, i, lists[RowBucket(rows[i])], EmissionFixed(count));
  }

  /** Results so far and results to come are all results. */
  ghost predicate ResultsAddUp(rows: seq<RowFixed>, lists: seq<seq<nat>>, count: nat, m: nat)
    requires |lists| == NUM_BUCKETS && m <= |rows| && 2 * count <= INDICES_MAX
  {
    multiset(Results(rows, lists, count, m)) + LaterPairs(rows, m, EmissionFixed(count))
    == LaterPairs(rows, 0, EmissionFixed(count))
  }

  lemma ResultsStep(rows: seq<RowFixed>, lists: seq<seq<nat>>, count: nat, m: nat, next: nat)
    requires m < |rows| && next == m + 1 && 2 * count <= INDICES_MAX && ListsFilled(rows, lists)
    requires ResultsAddUp(rows, lists, count, m)
    ensures ResultsAddUp(rows, lists, count, next)
  {
    RowResults(rows, lists, count, m, next);
    BagOfConcat(Results(rows, lists, count, m), ScanList(rows, m, lists[RowBucket(rows[m])], count));
  }

  lemma BagOfConcat<T>(a: seq<T>, b: seq<T>)
    ensures multiset(a + b) == multiset(a) + multiset(b)
  {
  }

  /** Whatever order the slots were filled in, the results are those of all pairs of surviving rows. */
  lemma AnySlotOrder(rows: seq<RowFixed>, lists: seq<seq<nat>>, count: nat)
    requires 2 * count <= INDICES_MAX && ListsFilled(rows, lists)
    ensures multiset(Results(rows, lists, count, |rows|)) == PairBag(Survivors(rows), EmissionFixed(count))
  {
    for m := 0 to |rows|
      invariant ResultsAddUp(rows, lists, count, m)
    {
      ResultsStep(rows, lists, count, m, m + 1);
    }
  }

  /** A round as a function of its rows: they claim their slots in turn, so the order is fixed too. */
  ghost function RoundRows(rows: seq<RowFixed>, count: nat): seq<RowFixed>
    requires 2 * count <= INDICES_MAX
  {
    Results(rows, ClaimedLists(rows), count, |rows|)
  }

  // ------------------------------------------------------------------ the order of the results

  /** Two places of rows, the earlier first. */
  datatype Pair = Pair(i: nat, j: nat)

  ghost predicate Before(a: Pair, b: Pair) {
    a.i < b.i || (a.i == b.i && a.j < b.j)
  }

  /** Two rows with slots in one bucket that share no index. */
  ghost predicate PairsUp(rows: seq<RowFixed>, count: nat, p: Pair)
    requires count <= INDICES_MAX
  {
    && p.i < p.j < |rows| && RowBucket(rows[p.i]) == RowBucket(rows[p.j])
    && !BucketFull(rows, p.i) && !BucketFull(rows, p.j)
    && Disjoint(rows[p.i].indices[..count], rows[p.j].indices[..count])
  }

  /** The pairs are of rows `from` to `to` and pair up, and `out` are their results. */
  ghost predicate Paired(rows: seq<RowFixed>, count: nat, from: nat, to: nat, at: seq<Pair>, out: seq<RowFixed>)
    requires 2 * count <= INDICES_MAX
  {
    |at| == |out| && forall t :: 0 <= t < |at| ==> PairedAt(rows, count, from, to, at[t], out[t])
  }

  ghost predicate PairedAt(rows: seq<RowFixed>, count: nat, from: nat, to: nat, p: Pair, y: RowFixed)
    requires 2 * count <= INDICES_MAX
  {
    from <= p.i < to && PairsUp(rows, count, p) && y == CombineFixed(rows[p.i], rows[p.j], count)
  }

  ghost predicate InOrder(at: seq<Pair>) {
    forall s, t :: 0 <= s < t < |at| ==> Before(at[s], at[t])
  }

  ghost predicate AllPairs(rows: seq<RowFixed>, count: nat, from: nat, to: nat, at: seq<Pair>)
    requires count <= INDICES_MAX
  {
    forall p: Pair :: from <= p.i < to && PairsUp(rows, count, p) ==> p in at
  }

  /** `out` holds the results of the pairs `at`: in order, all those of rows `from` to `to` that pair up. */
  ghost predicate ResultsOf(rows: seq<RowFixed>, count: nat, from: nat, to: nat, at: seq<Pair>, out: seq<RowFixed>)
    requires 2 * count <= INDICES_MAX
  {
    Paired(rows, count, from, to, at, out) && InOrder(at) && AllPairs(rows, count, from, to, at)
  }

  lemma PairedAppend(rows: seq<RowFixed>, count: nat, from: nat, mid: nat, to: nat, at: seq<Pair>,
                     out: seq<RowFixed>, at': seq<Pair>, out': seq<RowFixed>)
    requires 2 * count <= INDICES_MAX && from <= mid <= to
    requires Paired(rows, count, from, mid, at, out) && Paired(rows, count, mid, to, at', out')
    ensures Paired(rows, count, from, to, at + at', out + out')
  {
    forall t | 0 <= t < |at + at'| ensures PairedAt(rows, count, from, to, (at + at')[t], (out + out')[t]) {
      if t < |at| {
        assert PairedAt(rows, count, from, mid, at[t], out[t]);
      } else {
        assert PairedAt(rows, count, mid, to, at'[t - |at|], out'[t - |at|]);
      }
    }
  }

  lemma OrderAppend(rows: seq<RowFixed>, count: nat, from: nat, mid: nat, to: nat, at: seq<Pair>,
                    out: seq<RowFixed>, at': seq<Pair>, out': seq<RowFixed>)
    requires 2 * count <= INDICES_MAX && InOrder(at) && InOrder(at')
    requires Paired(rows, count, from, mid, at, out) && Paired(rows, count, mid, to, at', out')
    ensures InOrder(at + at')
  {
    forall s, t | 0 <= s < t < |at + at'| ensures Before((at + at')[s], (at + at')[t]) {
      if s < |at| <= t {
        assert PairedAt(rows, count, from, mid, at[s], out[s]);
        assert PairedAt(rows, count, mid, to, at'[t - |at|], out'[t - |at|]);
      }
    }
  }

  lemma ResultsAppend(rows: seq<RowFixed>, count: nat, from: nat, mid: nat, to: nat, at: seq<Pair>,
                      out: seq<RowFixed>, at': seq<Pair>, out': seq<RowFixed>)
    requires 2 * count <= INDICES_MAX && from <= mid <= to
    requires ResultsOf(rows, count, from, mid, at, out) && ResultsOf(rows, count, mid, to, at', out')
    ensures ResultsOf(rows, count, from, to, at + at', out + out')
  {
    PairedAppend(rows, count, from, mid, to, at, out, at', out');
    OrderAppend(rows, count, from, mid, to, at, out, at', out');
  }

  /** The places row `i` pairs with among `js`. */
  ghost function PartnersOf(rows: seq<RowFixed>, i: nat, js: seq<nat>, count: nat): seq<Pair>
    requires i < |rows| && count <= INDICES_MAX
  {
    if js == [] then [] else
      var j := js[|js| - 1];
      PartnersOf(rows, i, js[..|js| - 1], count)
      + if i < j < |rows| && Disjoint(rows[i].indices[..count], rows[j].indices[..count]) then [Pair(i, j)] else []
  }

  ghost predicate IsPartner(rows: seq<RowFixed>, i: nat, js: seq<nat>, count: nat, p: Pair)
    requires i < |rows| && count <= INDICES_MAX
  {
    && p.i == i < p.j < |rows| && p.j in js && Disjoint(rows[i].indices[..count], rows[p.j].indices[..count])
  }

  ghost predicate PartnersListed(rows: seq<RowFixed>, i: nat, js: seq<nat>, count: nat, at: seq<Pair>,
                                 out: seq<RowFixed>)
    requires i < |rows| && 2 * count <= INDICES_MAX
  {
    && |at| == |out|
    && (forall p :: p in at <==> IsPartner(rows, i, js, count, p))
    && (forall t :: 0 <= t < |at| ==>
          at[t].i == i && at[t].j < |rows| && out[t] == CombineFixed(rows[i], rows[at[t].j], count))
    && (forall s, t :: 0 <= s < t < |at| ==> at[s].j < at[t].j)
  }

  lemma {:induction false} ScanListed(rows: seq<RowFixed>, i: nat, js: seq<nat>, count: nat)
    requires i < |rows| && 2 * count <= INDICES_MAX && Ascending(js)
    ensures PartnersListed(rows, i, js, count, PartnersOf(rows, i, js, count), ScanList(rows, i, js, count))
  {
    if js != [] {
      var j, init := js[|js| - 1], js[..|js| - 1];
      assert js == init + [j];
      ScanListed(rows, i, init, count);
      var at, all := PartnersOf(rows, i, init, count), PartnersOf(rows, i, js, count);
      forall t | 0 <= t < |at| ensures at[t].j < j {
        assert at[t] in at;
        assert IsPartner(rows, i, init, count, at[t]);
      }
      forall p ensures p in all <==> IsPartner(rows, i, js, count, p) {
        assert p in at <==> IsPartner(rows, i, init, count, p);
      }
    }
  }

  /** What row `i` scans in its bucket is what it pairs up with. */
  lemma PartnersAre(rows: seq<RowFixed>, i: nat, count: nat, p: Pair)
    requires i < |rows| && 2 * count <= INDICES_MAX
    ensures IsPartner(rows, i, ClaimedLists(rows)[RowBucket(rows[i])], count, p)
       <==> p.i == i && PairsUp(rows, count, p)
  {
    var bs := RowBuckets(rows);
    ClaimedAre(bs, |rows|, bs[i], p.j);
    if p.i == i < p.j < |rows| && bs[i] == bs[p.j] {
      KeptIff(rows, i);
      KeptIff(rows, p.j);
      if Kept(bs, p.j) && !Kept(bs, i) {
        KeptAfter(bs, i, p.j);
      }
    }
  }

  lemma RowInOrder(rows: seq<RowFixed>, count: nat, m: nat, next: nat)
    requires m < |rows| && next == m + 1 && 2 * count <= INDICES_MAX
    ensures var js := ClaimedLists(rows)[RowBucket(rows[m])];
            ResultsOf(rows, count, m, next, PartnersOf(rows, m, js, count), ScanList(rows, m, js, count))
  {
    var js := ClaimedLists(rows)[RowBucket(rows[m])];
    var more, out := PartnersOf(rows, m, js, count), ScanList(rows, m, js, count);
    BucketAscends(RowBuckets(rows), |rows|, RowBucket(rows[m]));
    ScanListed(rows, m, js, count);
    PartnersPairUp(rows, m, js, count, more, out);
    forall t | 0 <= t < |more| ensures PairedAt(rows, count, m, next, more[t], out[t]) {
      assert more[t] in more;
    }
  }

  lemma PartnersPairUp(rows: seq<RowFixed>, m: nat, js: seq<nat>, count: nat, more: seq<Pair>, out: seq<RowFixed>)
    requires m < |rows| && 2 * count <= INDICES_MAX && js == ClaimedLists(rows)[RowBucket(rows[m])]
    requires PartnersListed(rows, m, js, count, more, out)
    ensures forall p: Pair :: p in more <==> p.i == m && PairsUp(rows, count, p)
  {
    forall p: Pair ensures p in more <==> p.i == m && PairsUp(rows, count, p) {
      PartnersAre(rows, m, count, p);
      assert p in more <==> IsPartner(rows, m, js, count, p);
    }
  }

  /**
   A round, order included: the results of all pairs of rows that share a bucket and no
   index and of which neither has found its bucket full, by first and then second place.
   */
  lemma RoundInOrder(rows: seq<RowFixed>, count: nat) returns (at: seq<Pair>)
    requires 2 * count <= INDICES_MAX
    ensures ResultsOf(rows, count, 0, |rows|, at, RoundRows(rows, count))
  {
    at := [];
    for m := 0 to |rows|
      invariant ResultsOf(rows, count, 0, m, at, Results(rows, ClaimedLists(rows), count, m))
    {
      var js := ClaimedLists(rows)[RowBucket(rows[m])];
      RowInOrder(rows, count, m, m + 1);
      ResultsAppend(rows, count, 0, m, m + 1, at, Results(rows, ClaimedLists(rows), count, m),
                    PartnersOf(rows, m, js, count), ScanList(rows, m, js, count));
      at := at + PartnersOf(rows, m, js, count);
    }
  }

  lemma RoundRowsBag(rows: seq<RowFixed>, count: nat)
    requires 2 * count <= INDICES_MAX
    ensures multiset(RoundRows(rows, count)) == PairBag(Survivors(rows), EmissionFixed(count))
  {
    AnySlotOrder(rows, ClaimedLists(rows), count);
  }

  lemma OneFixedResult(count: nat)
    requires 2 * count <= INDICES_MAX
    ensures OneResultPerPair(RowBucket, EmissionFixed(count))
  {
  }

  // ------------------------------------------------------------------ overflow

  /** Every row that finds its bucket full shares an index with each earlier row of the bucket. */
  ghost predicate OverflowHarmless(rows: seq<RowFixed>, count: nat)
    requires count <= INDICES_MAX
  {
    forall i, j :: 0 <= i < j < |rows| && RowBucket(rows[i]) == RowBucket(rows[j]) && BucketFull(rows, j) ==>
      !Disjoint(rows[i].indices[..count], rows[j].indices[..count])
  }

  ghost predicate NoBucketFull(rows: seq<RowFixed>) {
    forall p :: 0 <= p < |rows| ==> !BucketFull(rows, p)
  }

  lemma HarmlessIff(rows: seq<RowFixed>, count: nat)
    requires 2 * count <= INDICES_MAX
    ensures NothingLost(rows, RowBuckets(rows), 0, EmissionFixed(count)) <==> OverflowHarmless(rows, count)
  {
    var bs, e := RowBuckets(rows), EmissionFixed(count);
    AllKeptIff(rows);
    if NothingLost(rows, bs, 0, e) {
      forall i, j | 0 <= i < j < |rows| && RowBucket(rows[i]) == RowBucket(rows[j]) && BucketFull(rows, j)
        ensures !Disjoint(rows[i].indices[..count], rows[j].indices[..count])
      {
        assert LosesNoneAfter(rows, bs, i, e);
        assert e(rows[i], rows[j]) == multiset{};
      }
    }
    if OverflowHarmless(rows, count) {
      forall i | 0 <= i < |bs| ensures LosesNoneAfter(rows, bs, i, e) {
        forall k | i + 1 <= k < |bs| && !Kept(bs, k) ensures e(rows[i], rows[k]) == multiset{} {
        }
      }
    }
  }

  /**
   The pairs of surviving rows are some of all pairs, and they are all of them exactly
   when overflow is harmless.
   */
  lemma SurvivorsPart(rows: seq<RowFixed>, count: nat)
    requires 2 * count <= INDICES_MAX
    ensures PartOf(PairBag(Survivors(rows), EmissionFixed(count)), PairBag(rows, EmissionFixed(count)),
                   OverflowHarmless(rows, count))
  {
    EmissionFits(rows, count);
    HarmlessIff(rows, count);
    KeptBagPart(rows, RowBuckets(rows), 0, EmissionFixed(count));
    assert rows[0..] == rows;
  }

  /**
   One round. Exactly the pairs among the first 16 rows of each bucket are emitted, each
   once. They are some of all pairs, and all of them exactly when overflow is harmless, as
   it is without overflow. At most 15/2 results come out per row.
   */
  method RoundKernel(rows: seq<RowFixed>, count: nat) returns (out: seq<RowFixed>)
    requires 1 <= count && 2 * count <= INDICES_MAX
    ensures out == RoundRows(rows, count)
    ensures multiset(out) == PairBag(Survivors(rows), EmissionFixed(count))
    ensures multiset(out) <= PairBag(rows, EmissionFixed(count))
    ensures multiset(out) == PairBag(rows, EmissionFixed(count)) <==> OverflowHarmless(rows, count)
    ensures NoBucketFull(rows) ==> OverflowHarmless(rows, count)
    ensures exists at :: ResultsOf(rows, count, 0, |rows|, at, out)
    ensures 2 * |out| <= 15 * |rows|
  {
    var counts := new nat[NUM_BUCKETS](_ => 0);
    var slots := new nat[NUM_BUCKETS * MAX_PER_BUCKET](_ => 0);
    FillSlots(rows, counts, slots);
    OrderedIsFilled(RowBuckets(rows), |rows|, counts[..], slots[..]);
    out := EmitPairs(rows, counts[..], slots[..], count);
    OrderedLists(rows, counts[..], slots[..]);
    OneFixedResult(count);
    RoundBound(rows, RowBucket, EmissionFixed(count));
    assert |out| == |multiset(out)|;
    SurvivorsPart(rows, count);
    ghost var at := RoundInOrder(rows, count);
  }
}
