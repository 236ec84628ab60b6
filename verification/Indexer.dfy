/**
 The indexer: one block, one list of signatures, the full backfill page by page, and the
 periodic tick, over the Redis hashes and the cursor.
 */
module Indexer {
  import opened Aggregates
  import opened Arith
  import opened History
  import opened Wrappers

  const PAGE := 1000

  function Rest(s: seq<Entry>, n: nat): seq<Entry> {
    s[Min(n, |s|)..]
  }

  /** The blocks in the order a backfill indexes them: newest page first, each page oldest first. */
  ghost function PageOrder(s: seq<Entry>): seq<MinedBlock>
    decreases |s|
  {
    if s == [] then [] else Mined(Reverse(FirstOf(s, PAGE))) + PageOrder(Rest(s, PAGE))
  }

  /** The history from its beginning up to the cursor. */
  ghost function UpTo(h: seq<Entry>, cursor: Option<Signature>): seq<Entry> {
    if cursor.None? then [] else h[Position(h, cursor.value)..]
  }

  /** The totals are exactly what the log lines of the history say up to the cursor. */
  ghost predicate Faithful(h: seq<Entry>, cursor: Option<Signature>, t: Totals) {
    CursorOk(h, cursor) && Records(t, UpTo(h, cursor))
  }

  lemma FaithfulMeans(h: seq<Entry>, cursor: Option<Signature>, t: Totals)
    ensures Faithful(h, cursor, t) <==> CursorOk(h, cursor) && Accounts(t, Mined(UpTo(h, cursor)))
  {
    RecordsIff(t, UpTo(h, cursor));
  }

  ghost function CursorAfter(h: seq<Entry>, cursor: Option<Signature>): Option<Signature> {
    if Newer(h, cursor) == [] then cursor else Some(h[0].sig)
  }

  ghost function TotalsAfter(h: seq<Entry>, cursor: Option<Signature>, t: Totals): Totals {
    Fold(t, Mined(Reverse(FirstOf(Newer(h, cursor), PAGE))))
  }

  /** The backfill stands at `before`, with `rest` behind it. */
  ghost predicate Standing(chain: nat -> seq<Entry>, clock: nat, before: Option<Signature>, rest: seq<Entry>) {
    CursorOk(chain(clock), before) && Older(chain(clock), before) == rest
  }

  /** After a full page the backfill moves onto its oldest signature; growth in front changes nothing. */
  lemma StandingMoves(chain: nat -> seq<Entry>, clock: nat, before: Option<Signature>, rest: seq<Entry>)
    requires Growing(chain) && Standing(chain, clock, before, rest) && |rest| >= PAGE
    ensures Standing(chain, clock + 1, Some(rest[PAGE - 1].sig), Rest(rest, PAGE))
  {
    assert Distinct(chain(clock)) && Distinct(chain(clock + 1));
    assert Extends(chain(clock), chain(clock + 1));
    OlderStep(chain(clock), before, PAGE - 1);
    OlderStable(chain(clock), chain(clock + 1), rest[PAGE - 1].sig);
  }

  /** `seen` is indexed, `total` blocks in number, and with `rest` it is everything. */
  ghost predicate Covers(start: Totals, t: Totals, total: nat, seen: seq<MinedBlock>, rest: seq<Entry>,
      all: seq<MinedBlock>)
  {
    seen + PageOrder(rest) == all && t == Fold(start, seen) && total == |seen|
  }

  lemma CoversPage(start: Totals, t: Totals, total: nat, seen: seq<MinedBlock>, rest: seq<Entry>, all: seq<MinedBlock>)
    requires Covers(start, t, total, seen, rest, all) && rest != []
    ensures var page := Mined(Reverse(FirstOf(rest, PAGE)));
            Covers(start, Fold(t, page), total + |Mined(FirstOf(rest, PAGE))|, seen + page, Rest(rest, PAGE), all)
  {
    PageOrderStep(seen, rest);
    FoldConcat(start, seen, Mined(Reverse(FirstOf(rest, PAGE))));
  }

  lemma CoversAll(start: Totals, t: Totals, total: nat, seen: seq<MinedBlock>, all: seq<MinedBlock>)
    requires Covers(start, t, total, seen, [], all)
    ensures t == Fold(start, all) && total == |all|
  {
    assert seen + [] == seen;
  }

  lemma PageOrderStep(seen: seq<MinedBlock>, s: seq<Entry>)
    requires s != []
    ensures (seen + Mined(Reverse(FirstOf(s, PAGE)))) + PageOrder(Rest(s, PAGE)) == seen + PageOrder(s)
    ensures |Mined(Reverse(FirstOf(s, PAGE)))| == |Mined(FirstOf(s, PAGE))|
  {
    var page, rest := Mined(Reverse(FirstOf(s, PAGE))), PageOrder(Rest(s, PAGE));
    assert PageOrder(s) == page + rest;
    assert (seen + page) + rest == seen + (page + rest);
    MinedReverse(FirstOf(s, PAGE));
  }

  class Index {
    var miners: map<string, nat>
    var rewards: map<string, nat>
    var rank: map<string, nat>
    var lastHeight: map<string, nat>
    var cursor: Option<Signature>

    function View(): Totals
      reads this
    {
      Totals(miners, rewards, rank, lastHeight)
    }

    /** A store without any of the keys, as before the first start or after a wipe. */
    constructor ()
      ensures View() == EMPTY && cursor == None
    {
      miners, rewards, rank, lastHeight, cursor := map[], map[], map[], map[], None;
    }

    method IndexBlock(b: MinedBlock)
      modifies this
      ensures View() == WithBlock(old(View()), b) && cursor == old(cursor)
    {
      miners := Increment(miners, b.winner, 1);
      rewards := Increment(rewards, b.winner, b.reward);
      lastHeight := lastHeight[b.winner := b.height];
      rank := Increment(rank, b.winner, 1);
    }

    method IndexBlocks(blocks: seq<MinedBlock>)
      modifies this
      ensures View() == Fold(old(View()), blocks) && cursor == old(cursor)
    {
      var i := 0;
      while i < |blocks|
        invariant i <= |blocks|
        invariant View() == Fold(old(View()), blocks[..i]) && cursor == old(cursor)
      {
        assert blocks[..i + 1][..i] == blocks[..i];
        IndexBlock(blocks[i]);
        i := i + 1;
      }
      assert blocks[..i] == blocks;
    }

    /** Oldest first, in batches, skipping failed transactions and those without a mined block. */
    method ProcessSigs(sigs: seq<Entry>, batchSize: nat) returns (indexed: nat)
      requires batchSize >= 1
      modifies this
      ensures View() == Fold(old(View()), Mined(Reverse(sigs))) && cursor == old(cursor)
      ensures indexed == |Mined(sigs)|
      ensures forall w: string :: Gains(old(View()), View(), sigs, w)
    {
      var ordered := Reverse(sigs);
      indexed := 0;
      var i := 0;
      while i < |ordered|
        invariant i <= |ordered|
        invariant View() == Fold(old(View()), Mined(ordered[..i])) && cursor == old(cursor)
        invariant indexed == |Mined(ordered[..i])|
      {
        var end := Min(i + batchSize, |ordered|);
        var batch := Succeeded(ordered[i..end]);
        MinedSucceeded(ordered[i..end]);
        assert ordered[..end] == ordered[..i] + ordered[i..end];
        MinedConcat(ordered[..i], ordered[i..end]);
        FoldConcat(old(View()), Mined(ordered[..i]), Mined(batch));
        var blocks := Mined(batch);
        IndexBlocks(blocks);
        indexed := indexed + |blocks|;
        i := end;
      }
      assert ordered[..i] == ordered;
      MinedReverse(sigs);
      forall w: string ensures Gains(old(View()), View(), sigs, w) {
        ReverseGains(old(View()), sigs, w);
      }
    }

    method BackfillPage(sigs: seq<Entry>, batchSize: nat, ghost start: Totals, ghost total: nat,
                        ghost seen: seq<MinedBlock>, ghost rest: seq<Entry>, ghost all: seq<MinedBlock>)
      returns (indexed: nat)
      requires batchSize >= 1 && rest != [] && sigs == FirstOf(rest, PAGE)
      requires Covers(start, View(), total, seen, rest, all)
      modifies this
      ensures Covers(start, View(), total + indexed, seen + Mined(Reverse(sigs)), Rest(rest, PAGE), all)
      ensures cursor == old(cursor)
    {
      CoversPage(start, View(), total, seen, rest, all);
      indexed := ProcessSigs(sigs, batchSize);
    }

    /** Every page behind the newest signature, while the chain may grow in front. */
    method FullBackfill(chain: nat -> seq<Entry>, now: nat, batchSize: nat)
      returns (pages: nat, totalBlocks: nat)
      requires Growing(chain) && batchSize >= 1
      modifies this
      ensures View() == Fold(old(View()), PageOrder(chain(now)))
      ensures totalBlocks == |PageOrder(chain(now))| && pages == (|chain(now)| + 999) / 1000
      ensures cursor == if chain(now) == [] then old(cursor) else BackfillCursor(chain(now))
    {
      var before: Option<Signature>, newest: Option<Signature>, clock: nat := None, None, now;
      pages, totalBlocks := 0, 0;
      ghost var rest, seen, read: nat := chain(now), [], 0;
      assert Covers(View(), View(), 0, [], rest, PageOrder(rest)) by {
        assert [] + PageOrder(rest) == PageOrder(rest);
      }
      while true
        invariant cursor == old(cursor)
        invariant Standing(chain, clock, before, rest)
        invariant Covers(old(View()), View(), totalBlocks, seen, rest, PageOrder(chain(now)))
        invariant read == 1000 * pages && read + |rest| == |chain(now)|
        invariant before == None ==> clock == now && newest == None
        invariant before.Some? ==> chain(now) != [] && newest == Some(chain(now)[0].sig)
        decreases |rest|
      {
        var sigs := FirstOf(Older(chain(clock), before), PAGE);
        if |sigs| == 0 {
          assert pages == (|chain(now)| + 999) / 1000;
          break;
        }
        if before == None && newest == None {
          newest := Some(sigs[0].sig);
        }
        var indexed := BackfillPage(sigs, batchSize, old(View()), totalBlocks, seen, rest, PageOrder(chain(now)));
        totalBlocks := totalBlocks + indexed;
        pages := pages + 1;
        ghost var was := rest;
        read := read + |sigs|;
        rest, seen := Rest(rest, PAGE), seen + Mined(Reverse(sigs));
        if |sigs| < PAGE {
          assert pages == (|chain(now)| + 999) / 1000;
          break;
        }
        StandingMoves(chain, clock, before, was);
        before := Some(sigs[|sigs| - 1].sig);
        clock := clock + 1;
      }
      assert rest == [];
      CoversAll(old(View()), View(), totalBlocks, seen, PageOrder(chain(now)));
      if newest.Some? {
        cursor := newest;
      }
    }

    /** At most a thousand of the signatures in front of the cursor, and then the newest is the cursor. */
    method Tick(h: seq<Entry>, batchSize: nat) returns (scanned: nat, indexed: nat)
      requires batchSize >= 1
      modifies this
      ensures View() == TotalsAfter(h, old(cursor), old(View()))
      ensures cursor == CursorAfter(h, old(cursor))
      ensures scanned == Min(1000, |Newer(h, old(cursor))|)
      ensures indexed == |Mined(FirstOf(Newer(h, old(cursor)), PAGE))|
    {
      var sigs := FirstOf(Newer(h, cursor), PAGE);
      if |sigs| == 0 {
        return 0, 0;
      }
      indexed := ProcessSigs(sigs, batchSize);
      cursor := Some(sigs[0].sig);
      scanned := |sigs|;
    }
  }

  // ------------------------------------------------------------------ backfill

  lemma {:induction false} PageOrderSums(s: seq<Entry>, w: string)
    ensures SameSums(PageOrder(s), Mined(s), w)
    decreases |s|
  {
    if s != [] {
      var page, rest := FirstOf(s, PAGE), Rest(s, PAGE);
      PageOrderSums(rest, w);
      MinedReverse(page);
      ReverseSums(Mined(page), w);
      SumsConcat(Mined(Reverse(page)), PageOrder(rest), w);
      SumsConcat(Mined(page), Mined(rest), w);
      MinedSplit(s, |page|);
    }
  }

  /** A backfill of an empty store counts every mined block of the history once. */
  lemma BackfillFaithful(h: seq<Entry>)
    ensures Faithful(h, BackfillCursor(h), Fold(EMPTY, PageOrder(h)))
  {
    assert Accounts(EMPTY, []);
    FoldAccounts(EMPTY, [], PageOrder(h));
    assert [] + PageOrder(h) == PageOrder(h);
    forall w: string ensures SameSums(PageOrder(h), Mined(h), w) {
      PageOrderSums(h, w);
    }
    AccountsSame(Fold(EMPTY, PageOrder(h)), PageOrder(h), Mined(h));
    assert h[0..] == h;
    FaithfulMeans(h, BackfillCursor(h), Fold(EMPTY, PageOrder(h)));
  }

  // ------------------------------------------------------------------ ticks

  lemma UpToStable(h: seq<Entry>, grown: seq<Entry>, sig: Signature)
    requires Distinct(grown) && Extends(h, grown) && Known(h, sig)
    ensures Known(grown, sig) && UpTo(grown, Some(sig)) == UpTo(h, Some(sig))
  {
    var shift, p := |grown| - |h|, Position(h, sig);
    PositionHolds(h, sig);
    assert grown[shift..][p] == grown[shift + p];
    assert Position(grown, grown[shift + p].sig) == shift + p;
    DropDrop(grown, shift, p);
  }

  lemma FaithfulStable(h: seq<Entry>, grown: seq<Entry>, cursor: Option<Signature>, t: Totals)
    requires Distinct(grown) && Extends(h, grown) && Faithful(h, cursor, t)
    ensures Faithful(grown, cursor, t)
  {
    if cursor.Some? {
      UpToStable(h, grown, cursor.value);
    }
  }

  lemma UpToSplit(h: seq<Entry>, cursor: Option<Signature>)
    requires CursorOk(h, cursor)
    ensures h == Newer(h, cursor) + UpTo(h, cursor)
  {
  }

  /** What the totals miss after a tick: the signatures in front of the cursor beyond a page. */
  ghost function Lost(h: seq<Entry>, cursor: Option<Signature>): seq<Entry> {
    Rest(Newer(h, cursor), PAGE)
  }

  lemma TickSums(h: seq<Entry>, cursor: Option<Signature>, w: string)
    requires CursorOk(h, cursor)
    ensures var done := Mined(UpTo(h, cursor)) + Mined(Reverse(FirstOf(Newer(h, cursor), PAGE)));
            && BlocksOf(Mined(h), w) == BlocksOf(done, w) + BlocksOf(Mined(Lost(h, cursor)), w)
            && RewardsOf(Mined(h), w) == RewardsOf(done, w) + RewardsOf(Mined(Lost(h, cursor)), w)
  {
    var newer, upTo := Newer(h, cursor), UpTo(h, cursor);
    var page := FirstOf(newer, PAGE);
    UpToSplit(h, cursor);
    MinedConcat(newer, upTo);
    MinedSplit(newer, |page|);
    MinedReverse(page);
    ReverseSums(Mined(page), w);
    SumsConcat(Mined(newer), Mined(upTo), w);
    SumsConcat(Mined(page), Mined(Lost(h, cursor)), w);
    SumsConcat(Mined(upTo), Mined(Reverse(page)), w);
  }

  lemma {:induction false} SomeWinner(blocks: seq<MinedBlock>)
    requires blocks != []
    ensures BlocksOf(blocks, blocks[|blocks| - 1].winner) > 0
  {
  }

  lemma TickKeeps(h: seq<Entry>, cursor: Option<Signature>, done: seq<MinedBlock>, after: Totals)
    requires CursorOk(h, cursor) && Mined(Lost(h, cursor)) == []
    requires done == Mined(UpTo(h, cursor)) + Mined(Reverse(FirstOf(Newer(h, cursor), PAGE)))
    requires Accounts(after, done)
    ensures Accounts(after, Mined(h))
  {
    forall w: string ensures SameSums(done, Mined(h), w) {
      TickSums(h, cursor, w);
    }
    AccountsSame(after, done, Mined(h));
  }

  lemma TickLoses(h: seq<Entry>, cursor: Option<Signature>, done: seq<MinedBlock>, after: Totals)
    requires CursorOk(h, cursor) && Mined(Lost(h, cursor)) != []
    requires done == Mined(UpTo(h, cursor)) + Mined(Reverse(FirstOf(Newer(h, cursor), PAGE)))
    requires Accounts(after, done)
    ensures !Accounts(after, Mined(h))
  {
    var lost := Mined(Lost(h, cursor));
    var w := lost[|lost| - 1].winner;
    TickSums(h, cursor, w);
    SomeWinner(lost);
    assert AccountsFor(after, done, w);
    assert !AccountsFor(after, Mined(h), w);
  }

  /**
   A tick leaves the totals faithful exactly when the signatures it skipped, those beyond
   the thousand newest, hold no mined block.
   */
  lemma TickFaithfulIff(h: seq<Entry>, cursor: Option<Signature>, t: Totals)
    requires Faithful(h, cursor, t)
    ensures Faithful(h, CursorAfter(h, cursor), TotalsAfter(h, cursor, t)) <==> Mined(Lost(h, cursor)) == []
  {
    var upTo, page := Mined(UpTo(h, cursor)), Mined(Reverse(FirstOf(Newer(h, cursor), PAGE)));
    var after, done := TotalsAfter(h, cursor, t), upTo + page;
    FaithfulMeans(h, cursor, t);
    assert Accounts(after, done) by { FoldAccounts(t, upTo, page); }
    if Mined(Lost(h, cursor)) == [] {
      TickKeeps(h, cursor, done, after);
    } else {
      TickLoses(h, cursor, done, after);
    }
    UpToAfter(h, cursor);
    FaithfulMeans(h, CursorAfter(h, cursor), after);
  }

  lemma UpToAfter(h: seq<Entry>, cursor: Option<Signature>)
    requires CursorOk(h, cursor)
    ensures CursorOk(h, CursorAfter(h, cursor)) && UpTo(h, CursorAfter(h, cursor)) == h
  {
    UpToSplit(h, cursor);
    if Newer(h, cursor) != [] {
      assert Position(h, h[0].sig) == 0;
    }
  }

  // ------------------------------------------------------------------ a tick that loses a block

  /** Signatures that differ by their length. */
  function RunOf(length: nat): (sig: Signature)
    ensures |sig| == length
  {
    seq(length, _ => 'a')
  }

  /** Transactions that failed, which every scan skips. */
  function Failures(n: nat): (s: seq<Entry>)
    ensures |s| == n && forall i :: 0 <= i < n ==> s[i] == Entry(RunOf(i), true, None, 0)
  {
    seq(n, i requires 0 <= i < n => Entry(RunOf(i), true, None, 0))
  }

  lemma {:induction false} FailuresMineNothing(n: nat)
    ensures Mined(Failures(n)) == []
  {
    if n > 0 {
      assert Failures(n)[..n - 1] == Failures(n - 1);
      FailuresMineNothing(n - 1);
    }
  }

  /** Histories whose signatures all differ in length repeat none. */
  lemma LengthsDistinct(h: seq<Entry>)
    requires forall i, j :: 0 <= i < j < |h| ==> |h[i].sig| != |h[j].sig|
    ensures Distinct(h)
  {
    forall p | 0 <= p < |h| ensures Position(h, h[p].sig) == p {
      FirstPlace(h, p);
    }
  }

  lemma {:induction false} FirstPlace(h: seq<Entry>, p: nat)
    requires p < |h| && forall i :: 0 <= i < p ==> h[i].sig != h[p].sig
    ensures Position(h, h[p].sig) == p
  {
    if p > 0 {
      assert h[0].sig != h[p].sig;
      FirstPlace(h[1..], p - 1);
    }
  }

  /** A thousand failures in front of a mined block, and the indexed history behind it. */
  function LateHistory(log: MineLog): seq<Entry> {
    Failures(PAGE) + [Entry(RunOf(PAGE), false, Some(log), 0), Entry(RunOf(PAGE + 1), true, None, 0)]
  }

  lemma LastTwo<T>(s: seq<T>, p: nat)
    requires |s| == p + 2
    ensures s[p + 1..] == [s[p + 1]] && s[..p + 1][p..] == [s[p]]
  {
  }

  lemma OneEntry(e: Entry)
    ensures Mined([e]) == if IsMined(e) then [BlockOf(e)] else []
  {
    assert [e][..0] == [];
  }

  lemma LateDistinct(log: MineLog)
    ensures Distinct(LateHistory(log)) && Position(LateHistory(log), RunOf(PAGE + 1)) == PAGE + 1
  {
    var h := LateHistory(log);
    forall i, j | 0 <= i < j < |h| ensures |h[i].sig| != |h[j].sig| {
      assert |h[i].sig| == i && |h[j].sig| == j;
    }
    LengthsDistinct(h);
    assert h[PAGE + 1].sig == RunOf(PAGE + 1);
  }

  /**
   A thousand newer signatures hide a mined block from the tick, and the cursor passes it.
   The totals were those of the chain up to the cursor before, and are not after.
   */
  lemma TickCanLose(log: MineLog)
    ensures var h, cursor := LateHistory(log), Some(RunOf(PAGE + 1));
            && Distinct(h) && Known(h, cursor.value) && Faithful(h, cursor, EMPTY)
            && Mined(Lost(h, cursor)) == [BlockOf(h[PAGE])]
            && !Faithful(h, CursorAfter(h, cursor), TotalsAfter(h, cursor, EMPTY))
  {
    var h, cursor := LateHistory(log), Some(RunOf(PAGE + 1));
    LateDistinct(log);
    LastTwo(h, PAGE);
    OneEntry(h[PAGE + 1]);
    OneEntry(h[PAGE]);
    assert Accounts(EMPTY, []);
    FaithfulMeans(h, cursor, EMPTY);
    TickFaithfulIff(h, cursor, EMPTY);
  }

  // ------------------------------------------------------------------ runs of ticks

  /** Ticks over growing histories. */
  ghost predicate Ticks(visits: seq<seq<Entry>>, cursor: Option<Signature>)
    decreases |visits|
  {
    visits == [] ||
    (&& Distinct(visits[0]) && CursorOk(visits[0], cursor)
     && (|visits| > 1 ==> Extends(visits[0], visits[1]))
     && Ticks(visits[1..], CursorAfter(visits[0], cursor)))
  }

  ghost function CursorOf(visits: seq<seq<Entry>>, cursor: Option<Signature>): Option<Signature>
    decreases |visits|
  {
    if visits == [] then cursor else CursorOf(visits[1..], CursorAfter(visits[0], cursor))
  }

  ghost function TotalsOf(visits: seq<seq<Entry>>, cursor: Option<Signature>, t: Totals): Totals
    decreases |visits|
  {
    if visits == [] then t
    else TotalsOf(visits[1..], CursorAfter(visits[0], cursor), TotalsAfter(visits[0], cursor, t))
  }

  /** The blocks the ticks of a run pass over. */
  ghost function Missed(visits: seq<seq<Entry>>, cursor: Option<Signature>): seq<MinedBlock>
    decreases |visits|
  {
    if visits == [] then [] else Mined(Lost(visits[0], cursor)) + Missed(visits[1..], CursorAfter(visits[0], cursor))
  }

  /** The blocks up to the cursor are those the totals have and those they owe. */
  ghost predicate Owes(h: seq<Entry>, cursor: Option<Signature>, t: Totals, have: seq<MinedBlock>,
      owed: seq<MinedBlock>)
  {
    CursorOk(h, cursor) && Accounts(t, have) && AddsUp(Mined(UpTo(h, cursor)), have, owed)
  }

  ghost predicate AddsUp(all: seq<MinedBlock>, have: seq<MinedBlock>, owed: seq<MinedBlock>) {
    forall w: string :: AddsUpFor(all, have, owed, w)
  }

  ghost predicate AddsUpFor(all: seq<MinedBlock>, have: seq<MinedBlock>, owed: seq<MinedBlock>, w: string) {
    && BlocksOf(all, w) == BlocksOf(have, w) + BlocksOf(owed, w)
    && RewardsOf(all, w) == RewardsOf(have, w) + RewardsOf(owed, w)
  }

  /** Totals that owe blocks are right exactly when they owe none. */
  lemma OwesNothingIff(h: seq<Entry>, cursor: Option<Signature>, t: Totals, have: seq<MinedBlock>,
      owed: seq<MinedBlock>)
    requires Owes(h, cursor, t, have, owed)
    ensures Faithful(h, cursor, t) <==> owed == []
  {
    var all := Mined(UpTo(h, cursor));
    FaithfulMeans(h, cursor, t);
    if owed == [] {
      forall w: string ensures SameSums(have, all, w) {
        assert AddsUpFor(all, have, owed, w);
      }
      AccountsSame(t, have, all);
    } else {
      var w := owed[|owed| - 1].winner;
      SomeWinner(owed);
      assert AddsUpFor(all, have, owed, w) && AccountsFor(t, have, w);
      assert !AccountsFor(t, all, w);
    }
  }

  /** A tick adds what it skips to what is owed. */
  lemma TickOwes(h: seq<Entry>, cursor: Option<Signature>, t: Totals, have: seq<MinedBlock>, owed: seq<MinedBlock>)
    requires Owes(h, cursor, t, have, owed)
    ensures Owes(h, CursorAfter(h, cursor), TotalsAfter(h, cursor, t),
                 have + Mined(Reverse(FirstOf(Newer(h, cursor), PAGE))), owed + Mined(Lost(h, cursor)))
  {
    var page, lost := Mined(Reverse(FirstOf(Newer(h, cursor), PAGE))), Mined(Lost(h, cursor));
    FoldAccounts(t, have, page);
    UpToAfter(h, cursor);
    forall w: string ensures AddsUpFor(Mined(h), have + page, owed + lost, w) {
      assert AddsUpFor(Mined(UpTo(h, cursor)), have, owed, w);
      TickSums(h, cursor, w);
      SumsConcat(Mined(UpTo(h, cursor)), page, w);
      SumsConcat(have, page, w);
      SumsConcat(owed, lost, w);
    }
  }

  lemma OwesStable(h: seq<Entry>, grown: seq<Entry>, cursor: Option<Signature>, t: Totals,
                   have: seq<MinedBlock>, owed: seq<MinedBlock>)
    requires Distinct(grown) && Extends(h, grown) && Owes(h, cursor, t, have, owed)
    ensures Owes(grown, cursor, t, have, owed)
  {
    if cursor.Some? {
      UpToStable(h, grown, cursor.value);
    }
  }

  lemma {:induction false} RunOwes(visits: seq<seq<Entry>>, cursor: Option<Signature>, t: Totals,
                                   have: seq<MinedBlock>, owed: seq<MinedBlock>)
    returns (all: seq<MinedBlock>, total: seq<MinedBlock>)
    requires visits != [] && Ticks(visits, cursor) && Owes(visits[0], cursor, t, have, owed)
    ensures Owes(visits[|visits| - 1], CursorOf(visits, cursor), TotalsOf(visits, cursor, t), all, total)
    ensures total == owed + Missed(visits, cursor)
    decreases |visits|
  {
    var h := visits[0];
    var c1, t1 := CursorAfter(h, cursor), TotalsAfter(h, cursor, t);
    var have1, owed1 := have + Mined(Reverse(FirstOf(Newer(h, cursor), PAGE))), owed + Mined(Lost(h, cursor));
    TickOwes(h, cursor, t, have, owed);
    if |visits| == 1 {
      OneVisit(visits, cursor, t);
      all, total := have1, owed1;
    } else {
      NextVisit(visits, cursor, c1);
      OwesStable(h, visits[1], c1, t1, have1, owed1);
      all, total := RunOwes(visits[1..], c1, t1, have1, owed1);
      MoreVisits(visits, cursor, t);
      AppendAssociative(owed, Mined(Lost(h, cursor)), Missed(visits[1..], c1));
    }
  }

  lemma OneVisit(visits: seq<seq<Entry>>, cursor: Option<Signature>, t: Totals)
    requires |visits| == 1
    ensures CursorOf(visits, cursor) == CursorAfter(visits[0], cursor)
    ensures TotalsOf(visits, cursor, t) == TotalsAfter(visits[0], cursor, t)
    ensures Missed(visits, cursor) == Mined(Lost(visits[0], cursor))
  {
    assert visits[1..] == [];
  }

  lemma MoreVisits(visits: seq<seq<Entry>>, cursor: Option<Signature>, t: Totals)
    requires visits != []
    ensures var c1 := CursorAfter(visits[0], cursor);
            && CursorOf(visits, cursor) == CursorOf(visits[1..], c1)
            && TotalsOf(visits, cursor, t) == TotalsOf(visits[1..], c1, TotalsAfter(visits[0], cursor, t))
            && Missed(visits, cursor) == Mined(Lost(visits[0], cursor)) + Missed(visits[1..], c1)
  {
  }

  lemma AppendAssociative<T>(a: seq<T>, b: seq<T>, c: seq<T>)
    ensures (a + b) + c == a + (b + c)
  {
  }

  lemma NextVisit(visits: seq<seq<Entry>>, cursor: Option<Signature>, c1: Option<Signature>)
    requires |visits| > 1 && Ticks(visits, cursor) && c1 == CursorAfter(visits[0], cursor)
    ensures var rest := visits[1..];
            && rest != [] && rest[0] == visits[1] && rest[|rest| - 1] == visits[|visits| - 1]
            && Ticks(rest, c1) && Distinct(rest[0]) && Extends(visits[0], rest[0])
  {
    assert visits[1..][0] == visits[1];
    assert Ticks(visits[1..], c1);
  }

  /** What a run of ticks passes over: nothing exactly when no single tick passes over a block. */
  ghost predicate NoneLost(visits: seq<seq<Entry>>, cursor: Option<Signature>)
    decreases |visits|
  {
    visits == [] ||
    (Mined(Lost(visits[0], cursor)) == [] && NoneLost(visits[1..], CursorAfter(visits[0], cursor)))
  }

  lemma {:induction false} MissedNothing(visits: seq<seq<Entry>>, cursor: Option<Signature>)
    ensures Missed(visits, cursor) == [] <==> NoneLost(visits, cursor)
    decreases |visits|
  {
    if visits != [] {
      MissedNothing(visits[1..], CursorAfter(visits[0], cursor));
    }
  }

  /** Nothing of `h` is missing from the totals and nothing is in them twice. */
  ghost predicate UpToDate(h: seq<Entry>, cursor: Option<Signature>, t: Totals) {
    Faithful(h, cursor, t) && UpTo(h, cursor) == h
  }

  /** The cursor of a run stands at the newest entry of the last history. */
  lemma {:induction false} RunReaches(visits: seq<seq<Entry>>, cursor: Option<Signature>)
    requires visits != [] && Ticks(visits, cursor)
    ensures UpTo(visits[|visits| - 1], CursorOf(visits, cursor)) == visits[|visits| - 1]
    decreases |visits|
  {
    var c1 := CursorAfter(visits[0], cursor);
    if |visits| == 1 {
      OneVisit(visits, cursor, EMPTY);
      UpToAfter(visits[0], cursor);
    } else {
      NextVisit(visits, cursor, c1);
      RunReaches(visits[1..], c1);
      MoreVisits(visits, cursor, EMPTY);
    }
  }

  /**
   After any number of ticks over a growing chain, however many signatures each finds, the
   totals are those of the latest history if and only if no tick ever passed over a block.
   A block once passed over is never made up for.
   */
  lemma TicksFaithfulIff(visits: seq<seq<Entry>>, cursor: Option<Signature>, t: Totals)
    requires visits != [] && Ticks(visits, cursor) && Faithful(visits[0], cursor, t)
    ensures UpToDate(visits[|visits| - 1], CursorOf(visits, cursor), TotalsOf(visits, cursor, t))
       <==> NoneLost(visits, cursor)
  {
    var start := Mined(UpTo(visits[0], cursor));
    FaithfulMeans(visits[0], cursor, t);
    assert Owes(visits[0], cursor, t, start, []);
    var all, owed := RunOwes(visits, cursor, t, start, []);
    assert [] + Missed(visits, cursor) == Missed(visits, cursor);
    OwesNothingIff(visits[|visits| - 1], CursorOf(visits, cursor), TotalsOf(visits, cursor, t), all, owed);
    MissedNothing(visits, cursor);
    RunReaches(visits, cursor);
  }

  /** No tick of the run finds more than a page of new signatures. */
  ghost predicate Paced(visits: seq<seq<Entry>>, cursor: Option<Signature>)
    decreases |visits|
  {
    visits == [] || (|Newer(visits[0], cursor)| <= 1000 && Paced(visits[1..], CursorAfter(visits[0], cursor)))
  }

  lemma {:induction false} PacedLosesNone(visits: seq<seq<Entry>>, cursor: Option<Signature>)
    requires Paced(visits, cursor)
    ensures NoneLost(visits, cursor)
    decreases |visits|
  {
    if visits != [] {
      assert Lost(visits[0], cursor) == [];
      PacedLosesNone(visits[1..], CursorAfter(visits[0], cursor));
    }
  }

  // ------------------------------------------------------------------ from the backfill on

  ghost function BackfillCursor(h: seq<Entry>): Option<Signature> {
    if h == [] then None else Some(h[0].sig)
  }

  /**
   The whole life of the index: a backfill of an empty store at the history `h`, which may
   be empty, and ticks after it. The totals are those of the latest history if and only if
   no tick passed over a block.
   */
  lemma IndexFaithfulIff(h: seq<Entry>, visits: seq<seq<Entry>>)
    requires Distinct(h) && visits != [] && Extends(h, visits[0]) && Ticks(visits, BackfillCursor(h))
    ensures UpToDate(visits[|visits| - 1], CursorOf(visits, BackfillCursor(h)),
                     TotalsOf(visits, BackfillCursor(h), Fold(EMPTY, PageOrder(h))))
       <==> NoneLost(visits, BackfillCursor(h))
  {
    BackfillFaithful(h);
    FaithfulStable(h, visits[0], BackfillCursor(h), Fold(EMPTY, PageOrder(h)));
    TicksFaithfulIff(visits, BackfillCursor(h), Fold(EMPTY, PageOrder(h)));
  }

  // ------------------------------------------------------------------ last heights

  /** All of a miner's blocks lie within one page of the backfill. */
  ghost predicate OnePage(s: seq<Entry>, w: string)
    decreases |s|
  {
    s == [] ||
    if BlocksOf(Mined(FirstOf(s, PAGE)), w) > 0 then BlocksOf(Mined(Rest(s, PAGE)), w) == 0
    else OnePage(Rest(s, PAGE), w)
  }

  lemma FallingParts(a: seq<MinedBlock>, b: seq<MinedBlock>)
    requires Falling(a + b)
    ensures Falling(a) && Falling(b)
  {
    forall i, j | 0 <= i < j < |a| ensures a[i].height > a[j].height {
      assert (a + b)[i] == a[i] && (a + b)[j] == a[j];
    }
    forall i, j | 0 <= i < j < |b| ensures b[i].height > b[j].height {
      assert (a + b)[|a| + i] == b[i] && (a + b)[|a| + j] == b[j];
    }
  }

  lemma OnePageSplit(s: seq<Entry>, w: string)
    requires s != [] && Falling(Mined(s))
    ensures Falling(Mined(Rest(s, PAGE)))
    ensures var page, rest := Mined(FirstOf(s, PAGE)), Mined(Rest(s, PAGE));
            && Highest(Mined(s), w) == (if Highest(page, w).Some? then Highest(page, w) else Highest(rest, w))
            && LastBy(PageOrder(s), w)
            == (if LastBy(PageOrder(Rest(s, PAGE)), w).Some? then LastBy(PageOrder(Rest(s, PAGE)), w)
                else Highest(page, w))
  {
    var page, rest := FirstOf(s, PAGE), Rest(s, PAGE);
    MinedSplit(s, |page|);
    FallingParts(Mined(page), Mined(rest));
    HighestConcat(Mined(page), Mined(rest), w);
    MinedReverse(page);
    ReverseLast(Mined(page), w);
    LastByConcat(Mined(Reverse(page)), PageOrder(rest), w);
  }

  /** What the older pages leave behind is lower than the miner's best in this page. */
  lemma OlderIsLower(s: seq<Entry>, w: string)
    requires s != [] && Falling(Mined(s))
    requires Highest(Mined(FirstOf(s, PAGE)), w).Some? && LastBy(PageOrder(Rest(s, PAGE)), w).Some?
    ensures Highest(Mined(FirstOf(s, PAGE)), w).value > LastBy(PageOrder(Rest(s, PAGE)), w).value
  {
    var page, rest := FirstOf(s, PAGE), Rest(s, PAGE);
    MinedSplit(s, |page|);
    LastIsOneOf(rest, w);
    HighestIsThere(Mined(page), w);
    FallsAcross(Mined(page), Mined(rest), Highest(Mined(page), w).value, LastBy(PageOrder(rest), w).value);
  }

  lemma FallsAcross(a: seq<MinedBlock>, b: seq<MinedBlock>, u: nat, v: nat)
    requires Falling(a + b) && HeightIn(a, u) && HeightIn(b, v)
    ensures u > v
  {
    var i :| 0 <= i < |a| && a[i].height == u;
    var j :| 0 <= j < |b| && b[j].height == v;
    assert (a + b)[i] == a[i] && (a + b)[|a| + j] == b[j];
  }

  /** The height a backfill leaves is that of one of the blocks. */
  lemma {:induction false} LastIsOneOf(s: seq<Entry>, w: string)
    ensures LastBy(PageOrder(s), w).Some? <==> BlocksOf(Mined(s), w) > 0
    ensures LastBy(PageOrder(s), w).Some? ==> HeightIn(Mined(s), LastBy(PageOrder(s), w).value)
    decreases |s|
  {
    if s != [] {
      var page, rest := FirstOf(s, PAGE), Rest(s, PAGE);
      LastIsOneOf(rest, w);
      PageOrderSums(s, w);
      LastByIsThere(PageOrder(s), w);
      LastByConcat(Mined(Reverse(page)), PageOrder(rest), w);
      MinedSplit(s, |page|);
      MinedReverse(page);
      LastByIsThere(Mined(Reverse(page)), w);
      if LastBy(PageOrder(rest), w).Some? {
        HeightInConcat(Mined(page), Mined(rest), LastBy(PageOrder(rest), w).value);
      } else if LastBy(Mined(Reverse(page)), w).Some? {
        HeightInReverse(Mined(page), LastBy(Mined(Reverse(page)), w).value);
        HeightInConcat(Mined(page), Mined(rest), LastBy(Mined(Reverse(page)), w).value);
      }
    }
  }

  /**
   On a chain whose heights rise, a backfill leaves a miner's highest block as its last
   height exactly when all the miner's blocks lie within one page.
   */
  lemma {:induction false} LastHeightIff(s: seq<Entry>, w: string)
    requires Falling(Mined(s))
    ensures Lookup(Fold(EMPTY, PageOrder(s)).lastHeight, w) == Highest(Mined(s), w) <==> OnePage(s, w)
    decreases |s|
  {
    FoldLastHeight(EMPTY, PageOrder(s), w);
    if s != [] {
      var page, rest := FirstOf(s, PAGE), Rest(s, PAGE);
      OnePageSplit(s, w);
      HighestIsThere(Mined(page), w);
      LastIsOneOf(rest, w);
      if Highest(Mined(page), w).None? {
        FoldLastHeight(EMPTY, PageOrder(rest), w);
        LastHeightIff(rest, w);
      } else if LastBy(PageOrder(rest), w).Some? {
        OlderIsLower(s, w);
      }
    }
  }

  // ------------------------------------------------------------------ last heights over a whole life

  /** The stored last height of `w` is that of the miner's highest block up to the cursor. */
  ghost predicate HeightRight(h: seq<Entry>, cursor: Option<Signature>, t: Totals, w: string)
    requires CursorOk(h, cursor)
  {
    Lookup(t.lastHeight, w) == Highest(Mined(UpTo(h, cursor)), w)
  }

  /** A stored last height is that of some block up to the cursor. */
  ghost predicate HeightKnown(h: seq<Entry>, cursor: Option<Signature>, t: Totals, w: string)
    requires CursorOk(h, cursor)
  {
    Lookup(t.lastHeight, w).Some? ==> HeightIn(Mined(UpTo(h, cursor)), Lookup(t.lastHeight, w).value)
  }

  /** A tick leaves the height right if it indexes a block of `w`, wrong if it only skips some, else as it was. */
  ghost predicate RightAfterTick(h: seq<Entry>, cursor: Option<Signature>, w: string, right: bool)
    requires CursorOk(h, cursor)
  {
    if BlocksOf(Mined(Newer(h, cursor)), w) == 0 then right
    else BlocksOf(Mined(FirstOf(Newer(h, cursor), PAGE)), w) > 0
  }

  /** The blocks of a history: those a tick indexes, those it skips, and those behind the cursor. */
  lemma TickParts(h: seq<Entry>, cursor: Option<Signature>)
    returns (page: seq<MinedBlock>, lost: seq<MinedBlock>, upTo: seq<MinedBlock>)
    requires CursorOk(h, cursor)
    ensures page == Mined(FirstOf(Newer(h, cursor), PAGE)) && lost == Mined(Lost(h, cursor))
    ensures upTo == Mined(UpTo(h, cursor))
    ensures Mined(Newer(h, cursor)) == page + lost && Mined(h) == (page + lost) + upTo
    ensures Mined(Reverse(FirstOf(Newer(h, cursor), PAGE))) == Reverse(page)
  {
    var newer := Newer(h, cursor);
    page, lost, upTo := Mined(FirstOf(newer, PAGE)), Mined(Lost(h, cursor)), Mined(UpTo(h, cursor));
    UpToSplit(h, cursor);
    MinedConcat(newer, UpTo(h, cursor));
    MinedSplit(newer, |FirstOf(newer, PAGE)|);
    MinedReverse(FirstOf(newer, PAGE));
  }

  /** What is highest in three stretches of falling heights, and what was stored before. */
  lemma HeightOfParts(page: seq<MinedBlock>, lost: seq<MinedBlock>, upTo: seq<MinedBlock>, w: string, was: Option<nat>)
    requires Falling((page + lost) + upTo)
    requires was.Some? ==> HeightIn(upTo, was.value)
    ensures var now := StoredAfter(page, w, was);
            && (now == Highest((page + lost) + upTo, w)
                <==> if BlocksOf(page + lost, w) == 0 then was == Highest(upTo, w) else BlocksOf(page, w) > 0)
            && (now.Some? ==> HeightIn((page + lost) + upTo, now.value))
  {
    FallingParts(page + lost, upTo);
    FallingParts(page, lost);
    HighestConcat(page + lost, upTo, w);
    HighestConcat(page, lost, w);
    ReverseLast(page, w);
    HighestIsThere(page, w);
    HighestIsThere(lost, w);
    SumsConcat(page, lost, w);
    if Highest(page, w).Some? {
      HeightInConcat(page, lost, Highest(page, w).value);
      HeightInConcat(page + lost, upTo, Highest(page, w).value);
    } else if was.Some? {
      HeightInConcat(page + lost, upTo, was.value);
      if Highest(lost, w).Some? {
        HeightInConcat(page, lost, Highest(lost, w).value);
        FallsAcross(page + lost, upTo, Highest(lost, w).value, was.value);
      }
    }
  }

  /** The height stored after a tick that indexes `page`. */
  ghost function StoredAfter(page: seq<MinedBlock>, w: string, was: Option<nat>): Option<nat> {
    if LastBy(Reverse(page), w).Some? then LastBy(Reverse(page), w) else was
  }

  lemma TickStores(h: seq<Entry>, cursor: Option<Signature>, t: Totals, w: string, page: seq<MinedBlock>)
    requires CursorOk(h, cursor) && Mined(Reverse(FirstOf(Newer(h, cursor), PAGE))) == Reverse(page)
    ensures Lookup(TotalsAfter(h, cursor, t).lastHeight, w) == StoredAfter(page, w, Lookup(t.lastHeight, w))
  {
    FoldLastHeight(t, Reverse(page), w);
  }

  lemma TickHeight(h: seq<Entry>, cursor: Option<Signature>, t: Totals, w: string)
    requires CursorOk(h, cursor) && Falling(Mined(h)) && HeightKnown(h, cursor, t, w)
    ensures CursorOk(h, CursorAfter(h, cursor))
    ensures HeightKnown(h, CursorAfter(h, cursor), TotalsAfter(h, cursor, t), w)
    ensures HeightRight(h, CursorAfter(h, cursor), TotalsAfter(h, cursor, t), w)
       <==> RightAfterTick(h, cursor, w, HeightRight(h, cursor, t, w))
  {
    var page, lost, upTo := TickParts(h, cursor);
    var c1, t1 := CursorAfter(h, cursor), TotalsAfter(h, cursor, t);
    UpToAfter(h, cursor);
    TickStores(h, cursor, t, w, page);
    HeightOfParts(page, lost, upTo, w, Lookup(t.lastHeight, w));
    RightMeans(h, c1, t1, w, (page + lost) + upTo, StoredAfter(page, w, Lookup(t.lastHeight, w)));
    RightMeans(h, cursor, t, w, upTo, Lookup(t.lastHeight, w));
  }

  lemma RightMeans(h: seq<Entry>, cursor: Option<Signature>, t: Totals, w: string, blocks: seq<MinedBlock>,
                   stored: Option<nat>)
    requires CursorOk(h, cursor) && blocks == Mined(UpTo(h, cursor)) && stored == Lookup(t.lastHeight, w)
    ensures HeightRight(h, cursor, t, w) <==> stored == Highest(blocks, w)
    ensures HeightKnown(h, cursor, t, w) <==> (stored.Some? ==> HeightIn(blocks, stored.value))
  {
  }

  ghost predicate AllFalling(visits: seq<seq<Entry>>) {
    forall i :: 0 <= i < |visits| ==> Falling(Mined(visits[i]))
  }

  /** Whether the height is right after a run: what its last tick to find a block of `w` made of it. */
  ghost predicate RightAfterRun(visits: seq<seq<Entry>>, cursor: Option<Signature>, w: string, right: bool)
    requires Ticks(visits, cursor)
    decreases |visits|
  {
    if visits == [] then right
    else RightAfterRun(visits[1..], CursorAfter(visits[0], cursor), w, RightAfterTick(visits[0], cursor, w, right))
  }

  lemma HeightStable(h: seq<Entry>, grown: seq<Entry>, cursor: Option<Signature>, t: Totals, w: string)
    requires Distinct(grown) && Extends(h, grown) && CursorOk(h, cursor) && CursorOk(grown, cursor)
    ensures HeightRight(grown, cursor, t, w) <==> HeightRight(h, cursor, t, w)
    ensures HeightKnown(grown, cursor, t, w) <==> HeightKnown(h, cursor, t, w)
  {
    if cursor.Some? {
      UpToStable(h, grown, cursor.value);
    }
  }

  lemma {:induction false} RunHeight(visits: seq<seq<Entry>>, cursor: Option<Signature>, t: Totals, w: string)
    requires visits != [] && Ticks(visits, cursor) && AllFalling(visits)
    requires HeightKnown(visits[0], cursor, t, w)
    ensures CursorOk(visits[|visits| - 1], CursorOf(visits, cursor))
    ensures HeightRight(visits[|visits| - 1], CursorOf(visits, cursor), TotalsOf(visits, cursor, t), w)
       <==> RightAfterRun(visits, cursor, w, HeightRight(visits[0], cursor, t, w))
    decreases |visits|
  {
    var h, c1, t1 := visits[0], CursorAfter(visits[0], cursor), TotalsAfter(visits[0], cursor, t);
    assert Falling(Mined(visits[0]));
    TickHeight(h, cursor, t, w);
    if |visits| == 1 {
      OneVisit(visits, cursor, t);
    } else {
      NextVisit(visits, cursor, c1);
      HeightStable(h, visits[1], c1, t1, w);
      RestFalling(visits);
      RunHeight(visits[1..], c1, t1, w);
      MoreVisits(visits, cursor, t);
    }
  }

  lemma RestFalling(visits: seq<seq<Entry>>)
    requires visits != [] && AllFalling(visits)
    ensures AllFalling(visits[1..])
  {
  }

  /**
   After a backfill and ticks on a chain whose heights rise, a miner's last height is that of
   the highest block exactly when the last tick that found blocks of the miner indexed one,
   or, when no tick found any, all of them lay within one page of the backfill.
   */
  lemma LifeHeightIff(h: seq<Entry>, visits: seq<seq<Entry>>, w: string)
    requires Distinct(h) && visits != [] && Extends(h, visits[0]) && Ticks(visits, BackfillCursor(h))
    requires Falling(Mined(h)) && AllFalling(visits)
    ensures Lookup(TotalsOf(visits, BackfillCursor(h), Fold(EMPTY, PageOrder(h))).lastHeight, w)
            == Highest(Mined(visits[|visits| - 1]), w)
       <==> RightAfterRun(visits, BackfillCursor(h), w, OnePage(h, w))
  {
    var cursor, start := BackfillCursor(h), Fold(EMPTY, PageOrder(h));
    BackfillHeight(h, w);
    HeightStable(h, visits[0], cursor, start, w);
    RunHeight(visits, cursor, start, w);
    RunReaches(visits, cursor);
  }

  lemma BackfillHeight(h: seq<Entry>, w: string)
    requires Distinct(h) && Falling(Mined(h))
    ensures var cursor, t := BackfillCursor(h), Fold(EMPTY, PageOrder(h));
            && CursorOk(h, cursor) && HeightKnown(h, cursor, t, w)
            && (HeightRight(h, cursor, t, w) <==> OnePage(h, w))
  {
    BackfillFaithful(h);
    assert UpTo(h, BackfillCursor(h)) == h;
    FoldLastHeight(EMPTY, PageOrder(h), w);
    LastIsOneOf(h, w);
    LastHeightIff(h, w);
  }

  // ------------------------------------------------------------------ a stale last height

  /** A newer block, failures to the end of the page, and an older block. */
  function StaleHistory(newer: MineLog, older: MineLog): seq<Entry> {
    [Entry(RunOf(PAGE), false, Some(newer), 0)] + Failures(PAGE - 1) + [Entry(RunOf(PAGE + 1), false, Some(older), 0)]
  }

  lemma TwoPages(newer: Entry, older: Entry)
    requires IsMined(newer) && IsMined(older)
    ensures var page := [newer] + Failures(PAGE - 1);
            && Mined(page) == [BlockOf(newer)] && Mined([older]) == [BlockOf(older)]
            && Mined(page + [older]) == [BlockOf(newer), BlockOf(older)]
  {
    OneEntry(newer);
    OneEntry(older);
    FailuresMineNothing(PAGE - 1);
    MinedConcat([newer], Failures(PAGE - 1));
    MinedConcat([newer] + Failures(PAGE - 1), [older]);
  }

  lemma StaleDistinct(newer: MineLog, older: MineLog)
    ensures Distinct(StaleHistory(newer, older))
  {
    var s := StaleHistory(newer, older);
    forall i, j | 0 <= i < j < |s| ensures |s[i].sig| != |s[j].sig| {
      assert |s[0].sig| == PAGE && |s[|s| - 1].sig| == PAGE + 1;
      assert 0 < i < PAGE ==> |s[i].sig| == i - 1;
      assert 0 < j < PAGE ==> |s[j].sig| == j - 1;
    }
    LengthsDistinct(s);
  }

  /** A miner with a block in each of two pages is left with the older height. */
  lemma StaleLastHeight(newer: MineLog, older: MineLog)
    requires newer.winner == older.winner && newer.height > older.height
    ensures var s := StaleHistory(newer, older);
            && Distinct(s) && Falling(Mined(s))
            && Lookup(Fold(EMPTY, PageOrder(s)).lastHeight, newer.winner) != Highest(Mined(s), newer.winner)
  {
    var s, w := StaleHistory(newer, older), newer.winner;
    var first, last := s[0], s[|s| - 1];
    StaleDistinct(newer, older);
    TwoPages(first, last);
    assert FirstOf(s, PAGE) == [first] + Failures(PAGE - 1) && Rest(s, PAGE) == [last];
    SomeWinner([BlockOf(first)]);
    SomeWinner([BlockOf(last)]);
    assert !OnePage(s, w);
    LastHeightIff(s, w);
  }
}
