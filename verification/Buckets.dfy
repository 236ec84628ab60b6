/**
 The counting sort of the GPU round on bucket numbers alone: which rows claim a slot,
 what a scan over the slots of a bucket sees, and how many pairs there can be.
 */
module Buckets {
  import opened Bags

  const MAX_PER_BUCKET := 16

  /** Positions below `m` that fall into bucket `b`, in order. */
  ghost function BucketList(bs: seq<nat>, m: nat, b: nat): seq<nat>
    requires m <= |bs|
  {
    if m == 0 then [] else BucketList(bs, m - 1, b) + if bs[m - 1] == b then [m - 1] else []
  }

  /** A row claims a slot when fewer than 16 rows before it are in its bucket. */
  ghost predicate Kept(bs: seq<nat>, i: nat)
    requires i < |bs|
  {
    |BucketList(bs, i, bs[i])| < MAX_PER_BUCKET
  }

  /** The positions that hold the slots of bucket `b` once `m` rows have been seen. */
  ghost function Claimed(bs: seq<nat>, m: nat, b: nat): (l: seq<nat>)
    requires m <= |bs|
    ensures |l| <= MAX_PER_BUCKET
  {
    var l := BucketList(bs, m, b);
    if |l| <= MAX_PER_BUCKET then l else l[..MAX_PER_BUCKET]
  }

  lemma {:induction false} BucketMembers(bs: seq<nat>, m: nat, b: nat)
    requires m <= |bs|
    ensures forall t :: 0 <= t < |BucketList(bs, m, b)| ==> InBucket(bs, m, b, BucketList(bs, m, b)[t])
    ensures forall t :: 0 <= t < |Claimed(bs, m, b)| ==> InBucket(bs, m, b, Claimed(bs, m, b)[t])
  {
    if m > 0 {
      BucketMembers(bs, m - 1, b);
    }
  }

  ghost predicate InBucket(bs: seq<nat>, m: nat, b: nat, j: nat)
    requires m <= |bs|
  {
    j < m && bs[j] == b
  }

  lemma ClaimedStep(bs: seq<nat>, m: nat, b: nat)
    requires m < |bs|
    ensures Claimed(bs, m + 1, b) == Claimed(bs, m, b) + if bs[m] == b && Kept(bs, m) then [m] else []
  {
  }

  /** The rows before `p` that share its bucket. */
  ghost function Peers(bs: seq<nat>, m: nat, b: nat): set<nat>
    requires m <= |bs|
  {
    set q | 0 <= q < m && bs[q] == b
  }

  lemma {:induction false} PeersCounted(bs: seq<nat>, m: nat, b: nat)
    requires m <= |bs|
    ensures |Peers(bs, m, b)| == |BucketList(bs, m, b)|
  {
    if m == 0 {
      assert Peers(bs, 0, b) == {};
    } else {
      PeersCounted(bs, m - 1, b);
      assert Peers(bs, m, b) == Peers(bs, m - 1, b) + if bs[m - 1] == b then {m - 1} else {};
    }
  }

  lemma {:induction false} BucketAscends(bs: seq<nat>, m: nat, b: nat)
    requires m <= |bs|
    ensures Ascending(BucketList(bs, m, b)) && Ascending(Claimed(bs, m, b))
  {
    if m > 0 {
      BucketAscends(bs, m - 1, b);
      BucketMembers(bs, m - 1, b);
    }
  }

  ghost predicate Ascending(s: seq<nat>) {
    forall i, j :: 0 <= i < j < |s| ==> s[i] < s[j]
  }

  /** A bucket's slots are claimed by its rows that are kept. */
  lemma {:induction false} ClaimedAre(bs: seq<nat>, m: nat, b: nat, j: nat)
    requires m <= |bs|
    ensures j in Claimed(bs, m, b) <==> j < m && bs[j] == b && Kept(bs, j)
  {
    if m > 0 {
      ClaimedAre(bs, m - 1, b, j);
      ClaimedStep(bs, m - 1, b);
    }
  }

  /** The rows from `from` up to `m` that claim a slot. */
  ghost function KeptRows<A>(rows: seq<A>, bs: seq<nat>, from: nat, m: nat): seq<A>
    requires |rows| == |bs| && m <= |bs|
  {
    if m <= from then [] else KeptRows(rows, bs, from, m - 1) + if Kept(bs, m - 1) then [rows[m - 1]] else []
  }

  lemma {:induction false} KeptFirst<A>(rows: seq<A>, bs: seq<nat>, i: nat, m: nat)
    requires |rows| == |bs| && i < m <= |bs|
    ensures KeptRows(rows, bs, i, m) == (if Kept(bs, i) then [rows[i]] else []) + KeptRows(rows, bs, i + 1, m)
  {
    if m > i + 1 {
      KeptFirst(rows, bs, i, m - 1);
    }
  }

  ghost predicate Within<A>(part: seq<A>, all: seq<A>, x: A) {
    multiset(part)[x] <= multiset(all)[x]
  }

  lemma WithinAppend<A>(part: seq<A>, all: seq<A>, y: A, x: A)
    requires Within(part, all, x)
    ensures Within(part, all + [y], x) && Within(part + [y], all + [y], x)
  {
    assert multiset(all + [y]) == multiset(all) + multiset{y};
    assert multiset(part + [y]) == multiset(part) + multiset{y};
  }

  lemma KeptLast<A>(rows: seq<A>, bs: seq<nat>, m: nat, next: nat)
    requires |rows| == |bs| && m < |bs| && next == m + 1
    ensures rows[..next] == rows[..m] + [rows[m]]
    ensures Kept(bs, m) ==> KeptRows(rows, bs, 0, next) == KeptRows(rows, bs, 0, m) + [rows[m]]
    ensures !Kept(bs, m) ==> KeptRows(rows, bs, 0, next) == KeptRows(rows, bs, 0, m)
  {
  }

  /** The kept rows are rows, each at most as often as it was given. */
  lemma KeptIsPart<A>(rows: seq<A>, bs: seq<nat>, x: A)
    requires |rows| == |bs|
    ensures Within(KeptRows(rows, bs, 0, |rows|), rows, x)
  {
    var kept, all, m := [], [], 0;
    while m < |rows|
      invariant m <= |rows| && kept == KeptRows(rows, bs, 0, m) && all == rows[..m]
      invariant Within(kept, all, x)
    {
      KeptLast(rows, bs, m, m + 1);
      WithinAppend(kept, all, rows[m], x);
      kept, all, m := if Kept(bs, m) then kept + [rows[m]] else kept, all + [rows[m]], m + 1;
    }
    assert all == rows;
  }

  // ------------------------------------------------------------------ scanning slots

  /** What row `i` emits when it scans the positions `js`: only later positions count. */
  ghost function ScanBag<A, B>(rows: seq<A>, i: nat, js: seq<nat>, e: (A, A) -> multiset<B>): multiset<B>
    requires i < |rows|
  {
    if js == [] then multiset{} else
      ScanBag(rows, i, js[..|js| - 1], e)
      + var j := js[|js| - 1]; if i < j < |rows| then e(rows[i], rows[j]) else multiset{}
  }

  lemma {:induction false} ScanAppend<A, B>(rows: seq<A>, i: nat, a: seq<nat>, b: seq<nat>, e: (A, A) -> multiset<B>)
    requires i < |rows|
    ensures ScanBag(rows, i, a + b, e) == ScanBag(rows, i, a, e) + ScanBag(rows, i, b, e)
  {
    if b == [] {
      assert a + b == a;
    } else {
      assert (a + b)[..|a + b| - 1] == a + b[..|b| - 1];
      ScanAppend(rows, i, a, b[..|b| - 1], e);
    }
  }

  lemma ScanOne<A, B>(rows: seq<A>, i: nat, j: nat, e: (A, A) -> multiset<B>)
    requires i < |rows| && j < |rows|
    ensures ScanBag(rows, i, [j], e) == if i < j < |rows| then e(rows[i], rows[j]) else multiset{}
  {
    assert [j][..0] == [];
    assert ScanBag(rows, i, [], e) == multiset{};
  }

  /** Slots may be filled in any order: a scan sees the same pairs. */
  lemma {:induction false} ScanPermutation<A, B>(rows: seq<A>, i: nat, s: seq<nat>, t: seq<nat>,
      e: (A, A) -> multiset<B>)
    requires multiset(s) == multiset(t) && i < |rows|
    ensures ScanBag(rows, i, s, e) == ScanBag(rows, i, t, e)
  {
    if s == [] {
      assert |multiset(t)| == 0;
    } else {
      var j, init := s[|s| - 1], s[..|s| - 1];
      var at := IndexOf(t, j, s);
      var rest := t[..at] + t[at + 1..];
      assert t == t[..at] + [j] + t[at + 1..];
      assert s == init + [j];
      assert multiset(init) == multiset(rest) by {
        assert multiset(init) == multiset(s) - multiset{j};
        assert multiset(rest) == multiset(t) - multiset{j};
      }
      ScanPermutation(rows, i, init, rest, e);
      ScanAppend(rows, i, init, [j], e);
      ScanAppend(rows, i, rest, [j], e);
      ScanPull(rows, i, t[..at], j, t[at + 1..], e);
    }
  }

  lemma ScanPull<A, B>(rows: seq<A>, i: nat, a: seq<nat>, j: nat, b: seq<nat>, e: (A, A) -> multiset<B>)
    requires i < |rows|
    ensures ScanBag(rows, i, a + [j] + b, e) == ScanBag(rows, i, (a + b) + [j], e)
  {
    ScanAppend(rows, i, a + [j], b, e);
    ScanAppend(rows, i, a, [j], e);
    ScanAppend(rows, i, a, b, e);
    ScanAppend(rows, i, a + b, [j], e);
  }

  ghost predicate OnlyInBucket<A(!new), B(!new)>(rows: seq<A>, bs: seq<nat>, e: (A, A) -> multiset<B>)
    requires |rows| == |bs|
  {
    forall i, j {:trigger e(rows[i], rows[j])} ::
      0 <= i < |rows| && 0 <= j < |rows| && bs[i] != bs[j] ==> e(rows[i], rows[j]) == multiset{}
  }

  /** What row `i` should see: the kept rows after it, or nothing when it has no slot itself. */
  ghost function SeenBy<A, B>(rows: seq<A>, bs: seq<nat>, i: nat, m: nat, e: (A, A) -> multiset<B>): multiset<B>
    requires |rows| == |bs| && i < m <= |bs|
  {
    if Kept(bs, i) then PairsWith(rows[i], KeptRows(rows, bs, i + 1, m), e) else multiset{}
  }

  ghost predicate ScanMatches<A, B>(rows: seq<A>, bs: seq<nat>, i: nat, m: nat, e: (A, A) -> multiset<B>)
    requires |rows| == |bs| && i < m <= |bs|
  {
    ScanBag(rows, i, Claimed(bs, m, bs[i]), e) == SeenBy(rows, bs, i, m, e)
  }

  /** Row `i` scanning its bucket pairs with the kept rows after it; a row without a slot sees none. */
  lemma {:induction false} ScanClaimed<A(!new), B(!new)>(rows: seq<A>, bs: seq<nat>, i: nat, m: nat,
      e: (A, A) -> multiset<B>)
    requires |rows| == |bs| && i < m <= |bs| && OnlyInBucket(rows, bs, e)
    ensures ScanMatches(rows, bs, i, m, e)
  {
    if m == i + 1 {
      ScanNothing(rows, bs, i, e);
    } else {
      ScanClaimed(rows, bs, i, m - 1, e);
      ScanNextRow(rows, bs, i, m - 1, m, e);
    }
  }

  lemma ScanNextRow<A(!new), B(!new)>(rows: seq<A>, bs: seq<nat>, i: nat, m: nat, next: nat, e: (A, A) -> multiset<B>)
    requires |rows| == |bs| && i < m < next <= |bs| && next == m + 1 && OnlyInBucket(rows, bs, e)
    requires ScanMatches(rows, bs, i, m, e)
    ensures ScanMatches(rows, bs, i, next, e)
  {
    ScanClaimedStep(rows, bs, i, m, e);
    SeenStep(rows, bs, i, m, e);
  }

  lemma ScanNothing<A(!new), B(!new)>(rows: seq<A>, bs: seq<nat>, i: nat, e: (A, A) -> multiset<B>)
    requires |rows| == |bs| && i < |bs|
    ensures ScanMatches(rows, bs, i, i + 1, e)
  {
    BucketMembers(bs, i + 1, bs[i]);
    ScanEarlier(rows, i, Claimed(bs, i + 1, bs[i]), e);
  }

  lemma SeenStep<A(!new), B(!new)>(rows: seq<A>, bs: seq<nat>, i: nat, m: nat, e: (A, A) -> multiset<B>)
    requires |rows| == |bs| && i < m < |bs| && OnlyInBucket(rows, bs, e)
    ensures SeenBy(rows, bs, i, m + 1, e)
         == SeenBy(rows, bs, i, m, e) + if Kept(bs, m) then e(rows[i], rows[m]) else multiset{}
  {
    if Kept(bs, i) {
      KeptPairs(rows, bs, i, m, e);
    } else if Kept(bs, m) {
      KeptAfter(bs, i, m);
      assert e(rows[i], rows[m]) == multiset{};
    }
  }

  /** A bucket that has run out of slots stays so. */
  lemma KeptAfter(bs: seq<nat>, i: nat, m: nat)
    requires i < m < |bs| && Kept(bs, m) && !Kept(bs, i)
    ensures bs[m] != bs[i]
  {
    BucketListGrows(bs, i, m, bs[i]);
  }

  lemma KeptPairs<A, B>(rows: seq<A>, bs: seq<nat>, i: nat, m: nat, e: (A, A) -> multiset<B>)
    requires |rows| == |bs| && i < m < |bs|
    ensures PairsWith(rows[i], KeptRows(rows, bs, i + 1, m + 1), e)
         == PairsWith(rows[i], KeptRows(rows, bs, i + 1, m), e)
            + if Kept(bs, m) then e(rows[i], rows[m]) else multiset{}
  {
    var before, after := KeptRows(rows, bs, i + 1, m), KeptRows(rows, bs, i + 1, m + 1);
    if Kept(bs, m) {
      assert after == before + [rows[m]];
      PairsWithAppend(rows[i], before, [rows[m]], e);
      assert PairsWith(rows[i], [rows[m]], e) == e(rows[i], rows[m]);
    } else {
      assert after == before;
    }
  }

  lemma ScanClaimedStep<A(!new), B(!new)>(rows: seq<A>, bs: seq<nat>, i: nat, m: nat, e: (A, A) -> multiset<B>)
    requires |rows| == |bs| && i < m < |bs| && OnlyInBucket(rows, bs, e)
    ensures ScanBag(rows, i, Claimed(bs, m + 1, bs[i]), e)
         == ScanBag(rows, i, Claimed(bs, m, bs[i]), e) + if Kept(bs, m) then e(rows[i], rows[m]) else multiset{}
  {
    ClaimedStep(bs, m, bs[i]);
    ScanOne(rows, i, m, e);
    ScanAppend(rows, i, Claimed(bs, m, bs[i]), [m], e);
    if bs[m] != bs[i] {
      assert e(rows[i], rows[m]) == multiset{};
    }
    if bs[m] != bs[i] || !Kept(bs, m) {
      assert Claimed(bs, m + 1, bs[i]) == Claimed(bs, m, bs[i]);
    }
  }

  lemma {:induction false} ScanEarlier<A, B>(rows: seq<A>, i: nat, js: seq<nat>, e: (A, A) -> multiset<B>)
    requires i < |rows| && forall t :: 0 <= t < |js| ==> js[t] <= i
    ensures ScanBag(rows, i, js, e) == multiset{}
  {
    if js != [] {
      ScanEarlier(rows, i, js[..|js| - 1], e);
    }
  }

  lemma {:induction false} BucketListGrows(bs: seq<nat>, i: nat, m: nat, b: nat)
    requires i <= m <= |bs|
    ensures |BucketList(bs, i, b)| <= |BucketList(bs, m, b)|
  {
    if i < m {
      BucketListGrows(bs, i, m - 1, b);
    }
  }

  // ------------------------------------------------------------------ what overflow loses

  /** Row `i` emits nothing with any later row that found its bucket full. */
  ghost predicate LosesNothing<A, B>(rows: seq<A>, bs: seq<nat>, i: nat, from: nat, e: (A, A) -> multiset<B>)
    requires |rows| == |bs| && i < |bs|
  {
    forall k {:trigger Kept(bs, k)} :: from <= k < |bs| && !Kept(bs, k) ==> e(rows[i], rows[k]) == multiset{}
  }

  /** `part` is within `all`, and is all of it exactly when `same`. */
  ghost predicate PartOf<B>(part: multiset<B>, all: multiset<B>, same: bool) {
    part <= all && (part == all <==> same)
  }

  lemma PartsAdd<B>(p: multiset<B>, a: multiset<B>, s: bool, p': multiset<B>, a': multiset<B>, s': bool)
    requires PartOf(p, a, s) && PartOf(p', a', s')
    ensures PartOf(p + p', a + a', s && s')
  {
    if p + p' == a + a' {
      forall z ensures p[z] == a[z] && p'[z] == a'[z] {
        assert (p + p')[z] == (a + a')[z];
      }
    }
  }

  lemma {:induction false} KeptPairsPart<A, B>(rows: seq<A>, bs: seq<nat>, i: nat, from: nat, e: (A, A) -> multiset<B>)
    requires |rows| == |bs| && i < |bs| && from <= |bs|
    ensures PartOf(PairsWith(rows[i], KeptRows(rows, bs, from, |bs|), e), PairsWith(rows[i], rows[from..], e),
                   LosesNothing(rows, bs, i, from, e))
    decreases |bs| - from
  {
    if from < |bs| {
      var next := from + 1;
      var kept, own := KeptRows(rows, bs, next, |bs|), e(rows[i], rows[from]);
      KeptPairsPart(rows, bs, i, next, e);
      KeptFirst(rows, bs, from, |bs|);
      assert rows[from..][1..] == rows[next..];
      if Kept(bs, from) {
        assert ([rows[from]] + kept)[1..] == kept;
        PartsAdd(own, own, true, PairsWith(rows[i], kept, e), PairsWith(rows[i], rows[next..], e),
                 LosesNothing(rows, bs, i, next, e));
      } else {
        assert [] + kept == kept;
        PartsAdd(multiset{}, own, own == multiset{}, PairsWith(rows[i], kept, e), PairsWith(rows[i], rows[next..], e),
                 LosesNothing(rows, bs, i, next, e));
      }
    }
  }

  /** What row `i` contributes to the pairs of kept rows, against what it contributes to all pairs. */
  lemma SeenPart<A(!new), B(!new)>(rows: seq<A>, bs: seq<nat>, i: nat, e: (A, A) -> multiset<B>)
    requires |rows| == |bs| && i < |bs| && OnlyInBucket(rows, bs, e)
    ensures PartOf(SeenBy(rows, bs, i, |bs|, e), PairsWith(rows[i], rows[i + 1..], e),
                   LosesNoneAfter(rows, bs, i, e))
  {
    var next := i + 1;
    KeptPairsPart(rows, bs, i, next, e);
    if !Kept(bs, i) {
      forall k | next <= k < |bs| && Kept(bs, k) ensures e(rows[i], rows[k]) == multiset{} {
        KeptAfter(bs, i, k);
      }
      NothingWith(rows, bs, i, next, e);
    }
  }

  /** A row that pairs with no kept row pairs with nothing exactly when it pairs with no other row either. */
  lemma {:induction false} NothingWith<A, B(!new)>(rows: seq<A>, bs: seq<nat>, i: nat, from: nat,
      e: (A, A) -> multiset<B>)
    requires |rows| == |bs| && i < |bs| && from <= |bs|
    requires forall k {:trigger Kept(bs, k)} :: from <= k < |bs| && Kept(bs, k) ==> e(rows[i], rows[k]) == multiset{}
    ensures PairsWith(rows[i], rows[from..], e) == multiset{} <==> LosesNothing(rows, bs, i, from, e)
    decreases |bs| - from
  {
    if from < |bs| {
      var next := from + 1;
      NothingWith(rows, bs, i, next, e);
      assert rows[from..][1..] == rows[next..];
      var own, rest := e(rows[i], rows[from]), PairsWith(rows[i], rows[next..], e);
      assert own + rest == multiset{} <==> own == multiset{} && rest == multiset{} by {
        PartsAdd(multiset{}, own, own == multiset{}, multiset{}, rest, rest == multiset{});
      }
      assert Kept(bs, from) || !Kept(bs, from);
    }
  }

  ghost predicate LosesNoneAfter<A, B>(rows: seq<A>, bs: seq<nat>, i: nat, e: (A, A) -> multiset<B>)
    requires |rows| == |bs| && i < |bs|
  {
    LosesNothing(rows, bs, i, i + 1, e)
  }

  /** No row from `from` on loses anything. */
  ghost predicate NothingLost<A, B>(rows: seq<A>, bs: seq<nat>, from: nat, e: (A, A) -> multiset<B>)
    requires |rows| == |bs|
  {
    forall i :: from <= i < |bs| ==> LosesNoneAfter(rows, bs, i, e)
  }

  lemma PairBagKept<A, B>(rows: seq<A>, bs: seq<nat>, i: nat, e: (A, A) -> multiset<B>)
    requires |rows| == |bs| && i < |bs|
    ensures PairBag(KeptRows(rows, bs, i, |bs|), e)
         == SeenBy(rows, bs, i, |bs|, e) + PairBag(KeptRows(rows, bs, i + 1, |bs|), e)
  {
    KeptFirst(rows, bs, i, |bs|);
    var rest := KeptRows(rows, bs, i + 1, |bs|);
    if Kept(bs, i) {
      assert ([rows[i]] + rest)[1..] == rest;
    } else {
      assert [] + rest == rest;
    }
  }

  lemma PairBagFrom<A, B>(rows: seq<A>, i: nat, e: (A, A) -> multiset<B>)
    requires i < |rows|
    ensures PairBag(rows[i..], e) == PairsWith(rows[i], rows[i + 1..], e) + PairBag(rows[i + 1..], e)
  {
    assert rows[i..][1..] == rows[i + 1..];
  }

  /**
   The pairs of kept rows are some of all pairs, and they are all of them exactly when no
   row that found its bucket full would have emitted anything with an earlier one.
   */
  lemma {:induction false} KeptBagPart<A(!new), B(!new)>(rows: seq<A>, bs: seq<nat>, from: nat,
      e: (A, A) -> multiset<B>)
    requires |rows| == |bs| && from <= |bs| && OnlyInBucket(rows, bs, e)
    ensures PartOf(PairBag(KeptRows(rows, bs, from, |bs|), e), PairBag(rows[from..], e), NothingLost(rows, bs, from, e))
    decreases |bs| - from
  {
    if from < |bs| {
      var next := from + 1;
      KeptBagPart(rows, bs, next, e);
      SeenPart(rows, bs, from, e);
      PairBagKept(rows, bs, from, e);
      PairBagFrom(rows, from, e);
      PartsAdd(SeenBy(rows, bs, from, |bs|, e), PairsWith(rows[from], rows[next..], e),
               LosesNoneAfter(rows, bs, from, e),
               PairBag(KeptRows(rows, bs, next, |bs|), e), PairBag(rows[next..], e), NothingLost(rows, bs, next, e));
      NothingLostFirst(rows, bs, from, next, e);
    }
  }

  lemma NothingLostFirst<A, B>(rows: seq<A>, bs: seq<nat>, from: nat, next: nat, e: (A, A) -> multiset<B>)
    requires |rows| == |bs| && from < |bs| && next == from + 1
    ensures NothingLost(rows, bs, from, e) <==> LosesNoneAfter(rows, bs, from, e) && NothingLost(rows, bs, next, e)
  {
  }

  // ------------------------------------------------------------------ how many pairs

  /** Pairs of positions of `bs` with equal buckets. */
  ghost function EqualPairs(bs: seq<nat>): nat {
    if bs == [] then 0 else multiset(bs[1..])[bs[0]] + EqualPairs(bs[1..])
  }

  /** For each member of `xs`, how often it occurs in `t`, all added up. */
  ghost function Occurrences(xs: seq<nat>, t: seq<nat>): nat {
    if xs == [] then 0 else multiset(t)[xs[0]] + Occurrences(xs[1..], t)
  }

  lemma {:induction false} OccurrencesCons(xs: seq<nat>, h: nat, t: seq<nat>)
    ensures Occurrences(xs, [h] + t) == Occurrences(xs, t) + multiset(xs)[h]
  {
    if xs != [] {
      OccurrencesCons(xs[1..], h, t);
      assert xs == [xs[0]] + xs[1..];
    }
  }

  /** Every pair is counted from both of its ends. */
  lemma {:induction false} PairsFromBothEnds(bs: seq<nat>)
    ensures Occurrences(bs, bs) == 2 * EqualPairs(bs) + |bs|
  {
    if bs != [] {
      assert bs == [bs[0]] + bs[1..];
      OccurrencesCons(bs[1..], bs[0], bs[1..]);
      PairsFromBothEnds(bs[1..]);
    }
  }

  lemma {:induction false} KeptPerBucket(bs: seq<nat>, m: nat, b: nat)
    requires m <= |bs|
    ensures multiset(KeptRows<nat>(bs, bs, 0, m))[b] == |Claimed(bs, m, b)| <= MAX_PER_BUCKET
  {
    if m > 0 {
      KeptPerBucket(bs, m - 1, b);
      ClaimedStep(bs, m - 1, b);
    }
  }

  lemma {:induction false} OccurrencesBounded(xs: seq<nat>, bs: seq<nat>, kept: seq<nat>)
    requires kept == KeptRows<nat>(bs, bs, 0, |bs|)
    ensures Occurrences(xs, kept) <= MAX_PER_BUCKET * |xs|
  {
    if xs != [] {
      OccurrencesBounded(xs[1..], bs, kept);
      KeptPerBucket(bs, |bs|, xs[0]);
    }
  }

  /** At most 16 rows a bucket leave at most 15/2 pairs a row. */
  lemma FewPairs(bs: seq<nat>, kept: seq<nat>)
    requires kept == KeptRows<nat>(bs, bs, 0, |bs|)
    ensures 2 * EqualPairs(kept) <= 15 * |kept|
  {
    PairsFromBothEnds(kept);
    OccurrencesBounded(kept, bs, kept);
  }

  /** A pair emits at most one result, and only within a bucket. */
  ghost predicate OneResultPerPair<A(!new), B(!new)>(bucket: A -> nat, e: (A, A) -> multiset<B>) {
    forall x, y {:trigger e(x, y)} :: |e(x, y)| <= if bucket(x) == bucket(y) then 1 else 0
  }

  ghost function BucketsOf<A>(rows: seq<A>, bucket: A -> nat): (bs: seq<nat>)
    ensures |bs| == |rows| && forall i :: 0 <= i < |rows| ==> bs[i] == bucket(rows[i])
  {
    seq(|rows|, i requires 0 <= i < |rows| => bucket(rows[i]))
  }

  lemma {:induction false} BagWithinPairs<A(!new), B(!new)>(rows: seq<A>, bucket: A -> nat, e: (A, A) -> multiset<B>)
    requires OneResultPerPair(bucket, e)
    ensures |PairBag(rows, e)| <= EqualPairs(BucketsOf(rows, bucket))
  {
    if rows != [] {
      assert BucketsOf(rows, bucket)[1..] == BucketsOf(rows[1..], bucket);
      RowWithinPairs(rows[0], rows[1..], bucket, e);
      BagWithinPairs(rows[1..], bucket, e);
    }
  }

  lemma {:induction false} RowWithinPairs<A(!new), B(!new)>(x: A, t: seq<A>, bucket: A -> nat, e: (A, A) -> multiset<B>)
    requires OneResultPerPair(bucket, e)
    ensures |PairsWith(x, t, e)| <= multiset(BucketsOf(t, bucket))[bucket(x)]
  {
    if t != [] {
      assert BucketsOf(t, bucket) == [bucket(t[0])] + BucketsOf(t[1..], bucket);
      RowWithinPairs(x, t[1..], bucket, e);
    }
  }

  lemma {:induction false} KeptBuckets<A>(rows: seq<A>, bucket: A -> nat, m: nat)
    requires m <= |rows|
    ensures BucketsOf(KeptRows(rows, BucketsOf(rows, bucket), 0, m), bucket)
         == KeptRows<nat>(BucketsOf(rows, bucket), BucketsOf(rows, bucket), 0, m)
  {
    if m > 0 {
      KeptBuckets(rows, bucket, m - 1);
    }
  }

  /** A round over `n` rows emits at most `15 n / 2` results, whatever the rows are. */
  lemma RoundBound<A(!new), B(!new)>(rows: seq<A>, bucket: A -> nat, e: (A, A) -> multiset<B>)
    requires OneResultPerPair(bucket, e)
    ensures 2 * |PairBag(KeptRows(rows, BucketsOf(rows, bucket), 0, |rows|), e)| <= 15 * |rows|
  {
    var bs := BucketsOf(rows, bucket);
    var kept := KeptRows(rows, bs, 0, |rows|);
    BagWithinPairs(kept, bucket, e);
    KeptFewPairs(rows, bucket);
    KeptCount(rows, bs, |rows|);
  }

  lemma KeptFewPairs<A(!new)>(rows: seq<A>, bucket: A -> nat)
    ensures var kept := KeptRows(rows, BucketsOf(rows, bucket), 0, |rows|);
            2 * EqualPairs(BucketsOf(kept, bucket)) <= 15 * |kept|
  {
    var bs := BucketsOf(rows, bucket);
    KeptBuckets(rows, bucket, |rows|);
    FewPairs(bs, KeptRows<nat>(bs, bs, 0, |bs|));
  }

  lemma {:induction false} KeptCount<A>(rows: seq<A>, bs: seq<nat>, m: nat)
    requires |rows| == |bs| && m <= |bs|
    ensures |KeptRows(rows, bs, 0, m)| <= m
  {
    if m > 0 {
      KeptCount(rows, bs, m - 1);
    }
  }
}
