/**
 The per-miner totals the indexer keeps, as a fold over mined blocks in the order they are
 indexed, and what that fold means in terms of counts, sums and heights.
 */
module Aggregates {
  import opened History
  import opened Wrappers

  datatype Totals = Totals(miners: map<string, nat>, rewards: map<string, nat>,
                           rank: map<string, nat>, lastHeight: map<string, nat>)

  const EMPTY := Totals(map[], map[], map[], map[])

  function Get(m: map<string, nat>, key: string): nat {
    if key in m then m[key] else 0
  }

  function Lookup(m: map<string, nat>, key: string): Option<nat> {
    if key in m then Some(m[key]) else None
  }

  /** HINCRBY and ZINCRBY: a missing entry counts as zero. */
  function Increment(m: map<string, nat>, key: string, delta: nat): map<string, nat> {
    m[key := Get(m, key) + delta]
  }

  function WithBlock(t: Totals, b: MinedBlock): Totals {
    Totals(Increment(t.miners, b.winner, 1), Increment(t.rewards, b.winner, b.reward),
           Increment(t.rank, b.winner, 1), t.lastHeight[b.winner := b.height])
  }

  function Fold(t: Totals, blocks: seq<MinedBlock>): Totals {
    if blocks == [] then t else WithBlock(Fold(t, blocks[..|blocks| - 1]), blocks[|blocks| - 1])
  }

  lemma {:induction false} FoldConcat(t: Totals, a: seq<MinedBlock>, b: seq<MinedBlock>)
    ensures Fold(t, a + b) == Fold(Fold(t, a), b)
  {
    if b == [] {
      assert a + b == a;
    } else {
      assert (a + b)[..|a + b| - 1] == a + b[..|b| - 1];
      FoldConcat(t, a, b[..|b| - 1]);
    }
  }

  // ------------------------------------------------------------------ counts and sums

  ghost function BlocksOf(blocks: seq<MinedBlock>, w: string): nat {
    if blocks == [] then 0
    else BlocksOf(blocks[..|blocks| - 1], w) + if blocks[|blocks| - 1].winner == w then 1 else 0
  }

  ghost function RewardsOf(blocks: seq<MinedBlock>, w: string): nat {
    if blocks == [] then 0
    else
      RewardsOf(blocks[..|blocks| - 1], w)
      + if blocks[|blocks| - 1].winner == w then blocks[|blocks| - 1].reward else 0
  }

  lemma {:induction false} SumsConcat(a: seq<MinedBlock>, b: seq<MinedBlock>, w: string)
    ensures BlocksOf(a + b, w) == BlocksOf(a, w) + BlocksOf(b, w)
    ensures RewardsOf(a + b, w) == RewardsOf(a, w) + RewardsOf(b, w)
  {
    if b == [] {
      assert a + b == a;
    } else {
      assert (a + b)[..|a + b| - 1] == a + b[..|b| - 1];
      SumsConcat(a, b[..|b| - 1], w);
    }
  }

  ghost predicate AccountsFor(t: Totals, blocks: seq<MinedBlock>, w: string) {
    && Lookup(t.miners, w) == (if BlocksOf(blocks, w) > 0 then Some(BlocksOf(blocks, w)) else None)
    && Lookup(t.rank, w) == Lookup(t.miners, w)
    && Lookup(t.rewards, w) == (if BlocksOf(blocks, w) > 0 then Some(RewardsOf(blocks, w)) else None)
  }

  /** The hashes hold, for each winner among `blocks` and no one else, its blocks and rewards. */
  ghost predicate Accounts(t: Totals, blocks: seq<MinedBlock>) {
    forall w: string :: AccountsFor(t, blocks, w)
  }

  /** Rewards of a miner without blocks are nothing. */
  lemma {:induction false} NoBlocksNoRewards(blocks: seq<MinedBlock>, w: string)
    requires BlocksOf(blocks, w) == 0
    ensures RewardsOf(blocks, w) == 0
  {
    if blocks != [] {
      NoBlocksNoRewards(blocks[..|blocks| - 1], w);
    }
  }

  lemma {:induction false} FoldAccountsFor(t: Totals, was: seq<MinedBlock>, blocks: seq<MinedBlock>, w: string)
    requires AccountsFor(t, was, w)
    ensures AccountsFor(Fold(t, blocks), was + blocks, w)
  {
    if blocks == [] {
      assert was + blocks == was;
    } else {
      var init, last := blocks[..|blocks| - 1], blocks[|blocks| - 1];
      FoldAccountsFor(t, was, init, w);
      assert (was + blocks)[..|was + blocks| - 1] == was + init;
      if BlocksOf(was + init, w) == 0 {
        NoBlocksNoRewards(was + init, w);
      }
    }
  }

  lemma FoldAccounts(t: Totals, was: seq<MinedBlock>, blocks: seq<MinedBlock>)
    requires Accounts(t, was)
    ensures Accounts(Fold(t, blocks), was + blocks)
  {
    forall w: string ensures AccountsFor(Fold(t, blocks), was + blocks, w) {
      assert AccountsFor(t, was, w);
      FoldAccountsFor(t, was, blocks, w);
    }
  }

  /** Totals do not see the order of the blocks, only how often each is there. */
  lemma AccountsSame(t: Totals, a: seq<MinedBlock>, b: seq<MinedBlock>)
    requires Accounts(t, a)
    requires forall w: string :: SameSums(a, b, w)
    ensures Accounts(t, b)
  {
    forall w: string ensures AccountsFor(t, b, w) {
      assert AccountsFor(t, a, w) && SameSums(a, b, w);
    }
  }

  ghost predicate SameSums(a: seq<MinedBlock>, b: seq<MinedBlock>, w: string) {
    BlocksOf(a, w) == BlocksOf(b, w) && RewardsOf(a, w) == RewardsOf(b, w)
  }

  // ------------------------------------------------------------------ counts and sums over entries

  /** The entry is a successful transaction whose log line names `w` as the miner. */
  ghost predicate MinedBy(e: Entry, w: string) {
    !e.failed && e.log.Some? && e.log.value.winner == w
  }

  ghost function EntryBlocks(s: seq<Entry>, w: string): nat {
    if s == [] then 0 else EntryBlocks(s[..|s| - 1], w) + if MinedBy(s[|s| - 1], w) then 1 else 0
  }

  ghost function EntryRewards(s: seq<Entry>, w: string): nat {
    if s == [] then 0
    else EntryRewards(s[..|s| - 1], w) + if MinedBy(s[|s| - 1], w) then s[|s| - 1].log.value.reward else 0
  }

  lemma {:induction false} EntrySums(s: seq<Entry>, w: string)
    ensures BlocksOf(Mined(s), w) == EntryBlocks(s, w) && RewardsOf(Mined(s), w) == EntryRewards(s, w)
  {
    if s != [] {
      var init, last := s[..|s| - 1], s[|s| - 1];
      EntrySums(init, w);
      if IsMined(last) {
        assert Mined(s)[..|Mined(s)| - 1] == Mined(init);
      } else {
        assert Mined(s) == Mined(init);
      }
    }
  }

  ghost predicate RecordsFor(t: Totals, s: seq<Entry>, w: string) {
    var blocks, rewards := EntryBlocks(s, w), EntryRewards(s, w);
    && Lookup(t.miners, w) == (if blocks > 0 then Some(blocks) else None)
    && Lookup(t.rewards, w) == (if blocks > 0 then Some(rewards) else None)
    && Lookup(t.rank, w) == (if blocks > 0 then Some(blocks) else None)
  }

  /** The hashes hold what the log lines of `s` say of every miner, and of no one else. */
  ghost predicate Records(t: Totals, s: seq<Entry>) {
    forall w: string :: RecordsFor(t, s, w)
  }

  lemma RecordsIff(t: Totals, s: seq<Entry>)
    ensures Records(t, s) <==> Accounts(t, Mined(s))
  {
    forall w: string ensures RecordsFor(t, s, w) <==> AccountsFor(t, Mined(s), w) {
      EntrySums(s, w);
    }
  }

  /** From one state of the hashes to the next, what the log lines of `s` say of `w` is added. */
  ghost predicate Gains(t: Totals, next: Totals, s: seq<Entry>, w: string) {
    && Get(next.miners, w) == Get(t.miners, w) + EntryBlocks(s, w)
    && Get(next.rewards, w) == Get(t.rewards, w) + EntryRewards(s, w)
    && Get(next.rank, w) == Get(t.rank, w) + EntryBlocks(s, w)
  }

  lemma {:induction false} FoldGains(t: Totals, blocks: seq<MinedBlock>, w: string)
    ensures Get(Fold(t, blocks).miners, w) == Get(t.miners, w) + BlocksOf(blocks, w)
    ensures Get(Fold(t, blocks).rewards, w) == Get(t.rewards, w) + RewardsOf(blocks, w)
    ensures Get(Fold(t, blocks).rank, w) == Get(t.rank, w) + BlocksOf(blocks, w)
  {
    if blocks != [] {
      FoldGains(t, blocks[..|blocks| - 1], w);
    }
  }

  /** Indexing a list oldest first adds up what its entries say. */
  lemma ReverseGains(t: Totals, s: seq<Entry>, w: string)
    ensures Gains(t, Fold(t, Mined(Reverse(s))), s, w)
  {
    FoldGains(t, Mined(Reverse(s)), w);
    MinedReverse(s);
    ReverseSums(Mined(s), w);
    EntrySums(s, w);
  }

  // ------------------------------------------------------------------ reversal

  function Reverse<T>(s: seq<T>): (r: seq<T>)
    ensures |r| == |s|
  {
    if s == [] then [] else [s[|s| - 1]] + Reverse(s[..|s| - 1])
  }

  lemma {:induction false} MinedReverse(s: seq<Entry>)
    ensures Mined(Reverse(s)) == Reverse(Mined(s))
  {
    if s != [] {
      var init, last := s[..|s| - 1], s[|s| - 1];
      MinedReverse(init);
      MinedConcat([last], Reverse(init));
      assert [last][..0] == [];
      if IsMined(last) {
        assert Mined(s)[..|Mined(s)| - 1] == Mined(init);
      } else {
        assert Mined(s) == Mined(init);
        assert Mined(Reverse(s)) == Mined(Reverse(init));
      }
    }
  }

  lemma {:induction false} ReverseSums(s: seq<MinedBlock>, w: string)
    ensures SameSums(Reverse(s), s, w)
  {
    if s != [] {
      var init, last := s[..|s| - 1], s[|s| - 1];
      ReverseSums(init, w);
      SumsConcat([last], Reverse(init), w);
      assert [last][..0] == [];
    }
  }

  lemma {:induction false} ReverseAt<T>(s: seq<T>, i: nat)
    requires i < |s|
    ensures Reverse(s)[i] == s[|s| - 1 - i]
  {
    if i > 0 {
      ReverseAt(s[..|s| - 1], i - 1);
    }
  }

  // ------------------------------------------------------------------ heights

  /** The height of the last block by `w` in the order of `blocks`. */
  ghost function LastBy(blocks: seq<MinedBlock>, w: string): Option<nat> {
    if blocks == [] then None
    else if blocks[|blocks| - 1].winner == w then Some(blocks[|blocks| - 1].height)
    else LastBy(blocks[..|blocks| - 1], w)
  }

  /** The greatest height of a block by `w`. */
  ghost function Highest(blocks: seq<MinedBlock>, w: string): Option<nat> {
    if blocks == [] then None
    else
      var rest, last := Highest(blocks[..|blocks| - 1], w), blocks[|blocks| - 1];
      if last.winner == w && (rest.None? || rest.value < last.height) then Some(last.height) else rest
  }

  /** Heights strictly fall from newest to oldest. */
  ghost predicate Falling(blocks: seq<MinedBlock>) {
    forall i, j :: 0 <= i < j < |blocks| ==> blocks[i].height > blocks[j].height
  }

  lemma {:induction false} FoldLastHeight(t: Totals, blocks: seq<MinedBlock>, w: string)
    ensures Lookup(Fold(t, blocks).lastHeight, w)
         == if LastBy(blocks, w).Some? then LastBy(blocks, w) else Lookup(t.lastHeight, w)
  {
    if blocks != [] {
      FoldLastHeight(t, blocks[..|blocks| - 1], w);
    }
  }

  lemma {:induction false} LastByConcat(a: seq<MinedBlock>, b: seq<MinedBlock>, w: string)
    ensures LastBy(a + b, w) == if LastBy(b, w).Some? then LastBy(b, w) else LastBy(a, w)
  {
    if b == [] {
      assert a + b == a;
    } else {
      assert (a + b)[..|a + b| - 1] == a + b[..|b| - 1];
      LastByConcat(a, b[..|b| - 1], w);
    }
  }

  ghost predicate HeightIn(blocks: seq<MinedBlock>, v: nat) {
    exists i :: 0 <= i < |blocks| && blocks[i].height == v
  }

  lemma HeightInConcat(a: seq<MinedBlock>, b: seq<MinedBlock>, v: nat)
    requires HeightIn(a, v) || HeightIn(b, v)
    ensures HeightIn(a + b, v)
  {
    if HeightIn(a, v) {
      var i :| 0 <= i < |a| && a[i].height == v;
      assert (a + b)[i].height == v;
    } else {
      var i :| 0 <= i < |b| && b[i].height == v;
      assert (a + b)[|a| + i].height == v;
    }
  }

  lemma HeightInReverse(blocks: seq<MinedBlock>, v: nat)
    requires HeightIn(Reverse(blocks), v)
    ensures HeightIn(blocks, v)
  {
    var i :| 0 <= i < |blocks| && Reverse(blocks)[i].height == v;
    ReverseAt(blocks, i);
    assert blocks[|blocks| - 1 - i].height == v;
  }

  lemma {:induction false} LastByIsThere(blocks: seq<MinedBlock>, w: string)
    ensures LastBy(blocks, w).Some? <==> BlocksOf(blocks, w) > 0
    ensures LastBy(blocks, w).Some? ==> HeightIn(blocks, LastBy(blocks, w).value)
  {
    if blocks != [] && blocks[|blocks| - 1].winner != w {
      var init, last := blocks[..|blocks| - 1], blocks[|blocks| - 1];
      LastByIsThere(init, w);
      if LastBy(init, w).Some? {
        HeightInConcat(init, [last], LastBy(init, w).value);
        assert init + [last] == blocks;
      }
    }
  }

  lemma {:induction false} HighestIsThere(blocks: seq<MinedBlock>, w: string)
    ensures Highest(blocks, w).Some? <==> BlocksOf(blocks, w) > 0
    ensures Highest(blocks, w).Some? ==> HeightIn(blocks, Highest(blocks, w).value)
  {
    if blocks != [] {
      var init, last := blocks[..|blocks| - 1], blocks[|blocks| - 1];
      HighestIsThere(init, w);
      if Highest(init, w).Some? {
        HeightInConcat(init, [last], Highest(init, w).value);
        assert init + [last] == blocks;
      }
      assert last.winner == w ==> BlocksOf(blocks, w) > 0;
    }
  }

  lemma HighestAbove(blocks: seq<MinedBlock>, last: MinedBlock, w: string)
    requires Falling(blocks + [last]) && Highest(blocks, w).Some?
    ensures Highest(blocks, w).value > last.height
  {
    HighestIsThere(blocks, w);
    var i :| 0 <= i < |blocks| && blocks[i].height == Highest(blocks, w).value;
    assert (blocks + [last])[i] == blocks[i] && (blocks + [last])[|blocks|] == last;
  }

  /** Oldest to newest, the last block by `w` is the highest one. */
  lemma {:induction false} ReverseLast(blocks: seq<MinedBlock>, w: string)
    requires Falling(blocks)
    ensures LastBy(Reverse(blocks), w) == Highest(blocks, w)
  {
    if blocks != [] {
      var init, last := blocks[..|blocks| - 1], blocks[|blocks| - 1];
      ReverseLast(init, w);
      LastByConcat([last], Reverse(init), w);
      assert init + [last] == blocks && [last][..0] == [];
      if Highest(init, w).Some? {
        HighestAbove(init, last, w);
      }
    }
  }

  /** In front of older blocks, a miner's highest block is in the newer stretch if it has any there. */
  lemma {:induction false} HighestConcat(a: seq<MinedBlock>, b: seq<MinedBlock>, w: string)
    requires Falling(a + b)
    ensures Highest(a + b, w) == if Highest(a, w).Some? then Highest(a, w) else Highest(b, w)
  {
    if b == [] {
      assert a + b == a;
    } else {
      var init, last := b[..|b| - 1], b[|b| - 1];
      assert (a + b)[..|a + b| - 1] == a + init;
      assert (a + init) + [last] == a + b;
      HighestConcat(a, init, w);
      if Highest(a + init, w).Some? {
        HighestAbove(a + init, last, w);
      }
    }
  }
}
