/**
 The explorer's block history, page by page. A page scans at most five batches of 200
 signatures, ten transactions at a time, and stops as soon as it has enough mined blocks.
 */
module Pagination {
  import opened Arith
  import opened History
  import opened Wrappers

  const LIMIT := 200
  const BATCH := 10
  const MAX_BATCHES := 5

  datatype Page = Page(blocks: seq<MinedBlock>, next: Option<Signature>)

  /** `getSignaturesForAddress` with a `before` cursor. */
  function Signatures(h: seq<Entry>, before: Option<Signature>, limit: nat): seq<Entry>
    requires CursorOk(h, before)
  {
    FirstOf(Older(h, before), limit)
  }

  /** What a page is, without the batches: the first blocks among the next 1000 signatures. */
  function PageSpec(h: seq<Entry>, before: Option<Signature>, take: nat): Page
    requires CursorOk(h, before) && take >= 1
  {
    var older := Older(h, before);
    var window := FirstOf(older, MAX_BATCHES * LIMIT);
    var blocks := FirstOf(Mined(window), take);
    Page(blocks,
         if blocks != [] then Some(blocks[|blocks| - 1].sig)
         else if |older| <= (MAX_BATCHES - 1) * LIMIT then None
         else Some(window[|window| - 1].sig))
  }

  /** How far the blocks reach among the signatures, and what the cursor is. */
  ghost predicate PageReaches(older: seq<Entry>, take: nat, page: Page, n: nat, places: seq<nat>) {
    && n <= Min(1000, |older|) && ShowsFirst(older, n, page.blocks, places)
    && |page.blocks| <= take && (|page.blocks| < take ==> n == Min(1000, |older|))
    && page.next == (if page.blocks != [] then Some(page.blocks[|page.blocks| - 1].sig)
                     else if |older| <= 800 then None
                     else Some(older[Min(1000, |older|) - 1].sig))
  }

  /** The page shows the mined entries among the next 1000 signatures, newest first, up to `take`. */
  ghost predicate PageShows(older: seq<Entry>, take: nat, page: Page) {
    exists n, places :: PageReaches(older, take, page, n, places)
  }

  lemma PageOfEntries(h: seq<Entry>, before: Option<Signature>, take: nat)
    requires CursorOk(h, before) && take >= 1
    ensures PageShows(Older(h, before), take, PageSpec(h, before, take))
  {
    var older := Older(h, before);
    var window, page := FirstOf(older, MAX_BATCHES * LIMIT), PageSpec(h, before, take);
    var n, places := MinedFirst(window, take);
    ShowsPrefix(older, |window|, n, page.blocks, places);
    assert PageReaches(older, take, page, n, places);
  }

  lemma ShowsPrefix(s: seq<Entry>, w: nat, n: nat, blocks: seq<MinedBlock>, places: seq<nat>)
    requires w <= |s| && ShowsFirst(s[..w], n, blocks, places)
    ensures ShowsFirst(s, n, blocks, places)
  {
  }

  lemma FirstOfPrefix<T>(a: seq<T>, b: seq<T>, n: nat)
    requires n <= |a|
    ensures FirstOf(a + b, n) == a[..n]
  {
  }

  /** `p` older signatures scanned, and `blocks` is all they hold, or the first `take` of it. */
  ghost predicate Scanned(older: seq<Entry>, p: nat, take: nat, blocks: seq<MinedBlock>) {
    p <= |older| && blocks == FirstOf(Mined(older[..p]), take)
  }

  lemma ScannedMore(older: seq<Entry>, p: nat, q: nat, take: nat)
    requires p <= q <= |older|
    ensures Mined(older[..q]) == Mined(older[..p]) + Mined(older[p..q])
    ensures |FirstOf(Mined(older[..p]), take)| == take
         ==> FirstOf(Mined(older[..q]), take) == FirstOf(Mined(older[..p]), take)
  {
    MinedSplit(older[..q], p);
    assert older[..q][..p] == older[..p] && older[..q][p..] == older[p..q];
  }

  /** Push the mined blocks of one batch of successful transactions until there are enough. */
  method PushBatch(batch: seq<Entry>, blocks: seq<MinedBlock>, take: nat) returns (out: seq<MinedBlock>)
    requires |blocks| < take
    requires forall i :: 0 <= i < |batch| ==> !batch[i].failed
    ensures out == FirstOf(blocks + Mined(batch), take)
  {
    out := blocks;
    var j := 0;
    assert blocks + Mined(batch[..0]) == blocks;
    while j < |batch|
      invariant j <= |batch|
      invariant out == blocks + Mined(batch[..j]) && |out| < take
    {
      assert batch[..j + 1][..j] == batch[..j];
      MinedSplit(batch, j + 1);
      assert blocks + Mined(batch) == (blocks + Mined(batch[..j + 1])) + Mined(batch[j + 1..]);
      if batch[j].log.Some? {
        out := out + [BlockOf(batch[j])];
        assert out == blocks + Mined(batch[..j + 1]);
        if |out| >= take {
          FirstOfPrefix(out, Mined(batch[j + 1..]), take);
          return;
        }
      }
      j := j + 1;
    }
    assert batch[..j] == batch;
  }

  lemma BatchAdds(blocks: seq<MinedBlock>, sigs: seq<Entry>, i: nat, end: nat)
    requires i <= end <= |sigs|
    ensures (blocks + Mined(sigs[..i])) + Mined(Succeeded(sigs[i..end])) == blocks + Mined(sigs[..end])
  {
    MinedSucceeded(sigs[i..end]);
    assert sigs[..end] == sigs[..i] + sigs[i..end];
    MinedConcat(sigs[..i], sigs[i..end]);
  }

  /** One list of signatures, ten transactions at a time. */
  method ScanSignatures(sigs: seq<Entry>, blocks: seq<MinedBlock>, take: nat) returns (out: seq<MinedBlock>)
    requires |blocks| < take
    ensures out == FirstOf(blocks + Mined(sigs), take)
  {
    out := blocks;
    var i := 0;
    assert blocks + Mined(sigs[..0]) == blocks;
    while i < |sigs|
      invariant i <= |sigs|
      invariant out == blocks + Mined(sigs[..i]) && |out| < take
    {
      var end := Min(i + BATCH, |sigs|);
      var batch := Succeeded(sigs[i..end]);
      SucceededOnly(sigs[i..end]);
      BatchAdds(blocks, sigs, i, end);
      ghost var was := out;
      out := PushBatch(batch, out, take);
      if |out| >= take {
        MinedSplit(sigs, end);
        assert blocks + Mined(sigs) == (was + Mined(batch)) + Mined(sigs[end..]);
        FirstOfPrefix(was + Mined(batch), Mined(sigs[end..]), take);
        return;
      }
      i := end;
    }
    assert sigs[..i] == sigs;
  }

  lemma ScanStep(older: seq<Entry>, p: nat, q: nat, take: nat, blocks: seq<MinedBlock>, out: seq<MinedBlock>)
    requires p <= q <= |older| && Scanned(older, p, take, blocks) && |blocks| < take
    requires out == FirstOf(blocks + Mined(older[p..q]), take)
    ensures Scanned(older, q, take, out)
  {
    ScannedMore(older, p, q, take);
  }

  /** The cursor has moved over `p` of the signatures behind the start. */
  ghost predicate Moved(h: seq<Entry>, before: Option<Signature>, cursor: Option<Signature>, p: nat) {
    && CursorOk(h, before) && CursorOk(h, cursor) && p <= |Older(h, before)|
    && Older(h, cursor) == Older(h, before)[p..]
    && (p > 0 ==> cursor == Some(Older(h, before)[p - 1].sig))
  }

  lemma MoveTo(h: seq<Entry>, before: Option<Signature>, q: nat)
    requires Distinct(h) && CursorOk(h, before) && 0 < q <= |Older(h, before)|
    ensures Moved(h, before, Some(Older(h, before)[q - 1].sig), q)
  {
    OlderStep(h, before, q - 1);
  }

  lemma MoveOn(h: seq<Entry>, before: Option<Signature>, cursor: Option<Signature>, p: nat, sigs: seq<Entry>, q: nat)
    requires Distinct(h) && Moved(h, before, cursor, p)
    requires sigs == Signatures(h, cursor, LIMIT) && q == p + |sigs|
    ensures q == p + Min(LIMIT, |Older(h, before)| - p)
    ensures sigs == Older(h, before)[p..q]
    ensures sigs != [] ==> Moved(h, before, Some(sigs[|sigs| - 1].sig), q)
  {
    var older, rest := Older(h, before), Older(h, cursor);
    FetchedSlice(older, p, rest, sigs, q);
    if sigs != [] {
      MoveTo(h, before, q);
    }
  }

  /** A list fetched behind a cursor is a slice of what lies behind the start. */
  lemma FetchedSlice(older: seq<Entry>, p: nat, rest: seq<Entry>, sigs: seq<Entry>, q: nat)
    requires p <= |older| && rest == older[p..] && sigs == FirstOf(rest, LIMIT) && q == p + |sigs|
    ensures q == p + Min(LIMIT, |older| - p) && sigs == older[p..q]
    ensures sigs != [] ==> sigs[|sigs| - 1] == older[q - 1]
  {
    SliceOf(older, p, |sigs|, sigs);
  }

  lemma SliceOf<T>(s: seq<T>, p: nat, n: nat, slice: seq<T>)
    requires p + n <= |s| && slice == s[p..][..n]
    ensures slice == s[p..p + n]
    ensures n > 0 ==> slice[n - 1] == s[p + n - 1]
  {
  }

  ghost predicate Progress(h: seq<Entry>, before: Option<Signature>, take: nat,
                           cursor: Option<Signature>, p: nat, blocks: seq<MinedBlock>)
  {
    Moved(h, before, cursor, p) && Scanned(Older(h, before), p, take, blocks)
  }

  lemma ProgressStarts(h: seq<Entry>, before: Option<Signature>, take: nat)
    requires CursorOk(h, before)
    ensures Progress(h, before, take, before, 0, [])
  {
    assert Older(h, before)[0..] == Older(h, before);
  }

  lemma BatchKeeps(h: seq<Entry>, before: Option<Signature>, take: nat, cursor: Option<Signature>, p: nat,
                   blocks: seq<MinedBlock>, sigs: seq<Entry>, q: nat, out: seq<MinedBlock>)
    requires Distinct(h) && CursorOk(h, before) && CursorOk(h, cursor)
    requires Progress(h, before, take, cursor, p, blocks) && |blocks| < take
    requires sigs == Signatures(h, cursor, LIMIT) && q == p + |sigs| && sigs != []
    requires out == FirstOf(blocks + Mined(sigs), take)
    ensures CursorOk(h, Some(sigs[|sigs| - 1].sig)) && Progress(h, before, take, Some(sigs[|sigs| - 1].sig), q, out)
  {
    MoveOn(h, before, cursor, p, sigs, q);
    ScanStep(Older(h, before), p, q, take, blocks, out);
  }

  /** What lies behind a cursor that was handed out stays while the chain grows. */
  lemma SameSignatures(chain: nat -> seq<Entry>, now: nat, clock: nat, cursor: Option<Signature>)
    requires Growing(chain) && now <= clock && CursorOk(chain(now), cursor) && (cursor.None? ==> clock == now)
    ensures CursorOk(chain(clock), cursor)
    ensures Signatures(chain(clock), cursor, LIMIT) == Signatures(chain(now), cursor, LIMIT)
  {
    assert Distinct(chain(clock)) && Extends(chain(now), chain(clock));
    if cursor.Some? {
      OlderStable(chain(now), chain(clock), cursor.value);
    }
  }

  /** One batch: fetch, and unless it is empty scan it and move the cursor onto its oldest. */
  method NextBatch(chain: nat -> seq<Entry>, ghost now: nat, clock: nat, ghost before: Option<Signature>, take: nat,
                   cursor: Option<Signature>, ghost p: nat, blocks: seq<MinedBlock>)
    returns (empty: bool, last: Option<Signature>, out: seq<MinedBlock>, ghost q: nat)
    requires Growing(chain) && now <= clock && (cursor.None? ==> clock == now)
    requires CursorOk(chain(now), before) && CursorOk(chain(now), cursor)
    requires Progress(chain(now), before, take, cursor, p, blocks) && |blocks| < take
    ensures p <= |Older(chain(now), before)| && q == p + Min(LIMIT, |Older(chain(now), before)| - p)
    ensures CursorOk(chain(now), last) && Progress(chain(now), before, take, last, q, out)
    ensures empty <==> q == p
    ensures if empty then out == blocks && last == cursor else last.Some?
  {
    SameSignatures(chain, now, clock, cursor);
    assert Distinct(chain(now));
    var sigs := Signatures(chain(clock), cursor, LIMIT);
    q := p + |sigs|;
    MoveOn(chain(now), before, cursor, p, sigs, q);
    empty, last, out := |sigs| == 0, cursor, blocks;
    if !empty {
      out := ScanSignatures(sigs, blocks, take);
      BatchKeeps(chain(now), before, take, cursor, p, blocks, sigs, q, out);
      last := Some(sigs[|sigs| - 1].sig);
    }
  }

  /** After `tried` batches of at most 200 the scan stands at `p` of `total` signatures. */
  ghost predicate Reached(total: nat, tried: nat, p: nat, exhausted: bool, cursor: Option<Signature>) {
    if exhausted then p == total <= (MAX_BATCHES - 1) * LIMIT
    else p == Min(tried * LIMIT, total) && (tried > 0 ==> total > (tried - 1) * LIMIT && cursor.Some?)
  }

  lemma ReachedNext(total: nat, tried: nat, p: nat, cursor: Option<Signature>, empty: bool, last: Option<Signature>,
                    q: nat)
    requires Reached(total, tried, p, false, cursor) && tried < MAX_BATCHES && p <= total
    requires q == p + Min(LIMIT, total - p) && (empty <==> q == p) && (!empty ==> last.Some?)
    ensures Reached(total, tried + 1, q, empty, last)
  {
  }

  lemma EnoughScanned(older: seq<Entry>, p: nat, w: nat, take: nat, blocks: seq<MinedBlock>)
    requires p <= w <= |older| && Scanned(older, p, take, blocks)
    requires p == w || |blocks| >= take
    ensures Scanned(older, w, take, blocks)
  {
    ScannedMore(older, p, w, take);
  }

  /** The page after the loop, from how far the scan went. */
  lemma Finish(h: seq<Entry>, before: Option<Signature>, take: nat, cursor: Option<Signature>, p: nat,
               blocks: seq<MinedBlock>, exhausted: bool, tried: nat)
    requires take >= 1 && CursorOk(h, before) && Progress(h, before, take, cursor, p, blocks)
    requires Reached(|Older(h, before)|, tried, p, exhausted, cursor)
    requires tried <= MAX_BATCHES && (exhausted || |blocks| >= take || tried == MAX_BATCHES)
    ensures PageSpec(h, before, take)
         == Page(blocks, if |blocks| > 0 then Some(blocks[|blocks| - 1].sig) else if exhausted then None else cursor)
  {
    var older := Older(h, before);
    var w := Min(MAX_BATCHES * LIMIT, |older|);
    EnoughScanned(older, p, w, take, blocks);
    assert blocks == FirstOf(Mined(FirstOf(older, MAX_BATCHES * LIMIT)), take);
    if blocks == [] && !exhausted {
      assert older[..w][w - 1] == older[w - 1];
    }
  }

  /**
   The page: batches until there are enough blocks, no more signatures, or five tries. The
   chain may grow between the batches; the page is that of the history at the first one.
   */
  method FetchBlocksPage(chain: nat -> seq<Entry>, now: nat, before: Option<Signature>, take: nat) returns (page: Page)
    requires Growing(chain) && CursorOk(chain(now), before) && take >= 1
    ensures page == PageSpec(chain(now), before, take)
    ensures PageShows(Older(chain(now), before), take, page)
  {
    ghost var p: nat, total := 0, |Older(chain(now), before)|;
    var blocks: seq<MinedBlock> := [];
    var cursor, exhausted, batchesTried: nat := before, false, 0;
    ProgressStarts(chain(now), before, take);
    while |blocks| < take && !exhausted && batchesTried < MAX_BATCHES
      invariant batchesTried <= MAX_BATCHES
      invariant CursorOk(chain(now), cursor) && Progress(chain(now), before, take, cursor, p, blocks)
      invariant Reached(total, batchesTried, p, exhausted, cursor)
      decreases MAX_BATCHES - batchesTried
    {
      ghost var was, stood := cursor, p;
      exhausted, cursor, blocks, p := NextBatch(chain, now, now + batchesTried, before, take, cursor, p, blocks);
      ReachedNext(total, batchesTried, stood, was, exhausted, cursor, p);
      batchesTried := batchesTried + 1;
    }
    Finish(chain(now), before, take, cursor, p, blocks, exhausted, batchesTried);
    var next := if |blocks| > 0 then Some(blocks[|blocks| - 1].sig) else if exhausted then None else cursor;
    page := Page(blocks, if exhausted && |blocks| == 0 then None else next);
    PageOfEntries(chain(now), before, take);
  }

  // ------------------------------------------------------------------ what one page promises

  /** Cutting a stretch of history behind its m-th mined block. */
  lemma CutAtBlock(h: seq<Entry>, before: Option<Signature>, w: nat, m: nat)
    requires Distinct(h) && CursorOk(h, before) && w <= |Older(h, before)|
    requires 1 <= m <= |Mined(Older(h, before)[..w])|
    ensures var seen := Mined(Older(h, before)[..w])[..m];
            && Known(h, seen[m - 1].sig)
            && |Older(h, Some(seen[m - 1].sig))| < |Older(h, before)|
            && Mined(Older(h, before)) == seen + Mined(Older(h, Some(seen[m - 1].sig)))
  {
    var older := Older(h, before);
    var q := MinedCut(older[..w], m);
    assert older[..w][..q + 1] == older[..q + 1] && older[..w][q] == older[q];
    OlderStep(h, before, q);
    MinedSplit(older, q + 1);
  }

  lemma CutAtEntry(h: seq<Entry>, before: Option<Signature>, w: nat)
    requires Distinct(h) && CursorOk(h, before) && 1 <= w <= |Older(h, before)|
    requires Mined(Older(h, before)[..w]) == []
    ensures var cursor := Some(Older(h, before)[w - 1].sig);
            && Known(h, cursor.value)
            && |Older(h, cursor)| < |Older(h, before)|
            && Mined(Older(h, before)) == Mined(Older(h, cursor))
  {
    OlderStep(h, before, w - 1);
    MinedSplit(Older(h, before), w);
  }

  /** `blocks` and then what lies behind `next` is all that lies behind `before`. */
  ghost predicate Splits(h: seq<Entry>, before: Option<Signature>, blocks: seq<MinedBlock>, next: Option<Signature>)
    requires CursorOk(h, before)
  {
    && CursorOk(h, next)
    && (next.None? ==> blocks == [] && Mined(Older(h, before)) == [])
    && (next.Some? ==>
          && |Older(h, next)| < |Older(h, before)|
          && Mined(Older(h, before)) == blocks + Mined(Older(h, next)))
  }

  lemma SplitAtBlock(h: seq<Entry>, before: Option<Signature>, w: nat, m: nat, blocks: seq<MinedBlock>)
    requires Distinct(h) && CursorOk(h, before) && w <= |Older(h, before)|
    requires 1 <= m <= |Mined(Older(h, before)[..w])| && blocks == Mined(Older(h, before)[..w])[..m]
    ensures Splits(h, before, blocks, Some(blocks[m - 1].sig))
  {
    CutAtBlock(h, before, w, m);
  }

  lemma SplitAtEntry(h: seq<Entry>, before: Option<Signature>, w: nat)
    requires Distinct(h) && CursorOk(h, before) && 1 <= w <= |Older(h, before)|
    requires Mined(Older(h, before)[..w]) == []
    ensures Splits(h, before, [], Some(Older(h, before)[w - 1].sig))
  {
    CutAtEntry(h, before, w);
  }

  /** A page is a prefix of what is left, and its cursor stands exactly behind that prefix. */
  lemma PageStep(h: seq<Entry>, before: Option<Signature>, take: nat)
    requires Distinct(h) && CursorOk(h, before) && take >= 1
    ensures var page := PageSpec(h, before, take);
            |page.blocks| <= take && Splits(h, before, page.blocks, page.next)
  {
    var older := Older(h, before);
    var w := Min(MAX_BATCHES * LIMIT, |older|);
    var page := PageSpec(h, before, take);
    var seen := Mined(older[..w]);
    assert page.blocks == FirstOf(seen, take);
    if seen != [] {
      var m := Min(take, |seen|);
      SplitAtBlock(h, before, w, m, page.blocks);
      assert page.next == Some(page.blocks[m - 1].sig);
    } else if |older| <= (MAX_BATCHES - 1) * LIMIT {
      assert older[..w] == older;
      assert page.next == None;
    } else {
      SplitAtEntry(h, before, w);
      assert page.next == Some(older[w - 1].sig);
    }
  }

  // ------------------------------------------------------------------ all pages

  /** One call of the client: the history the node had then, and the page it asked for. */
  datatype Visit = Visit(history: seq<Entry>, take: nat)

  /** Following the cursors: every call sees the history grown, and the last cursor is null. */
  ghost predicate Walk(visits: seq<Visit>, before: Option<Signature>)
    decreases |visits|
  {
    && visits != []
    && var v := visits[0];
       && Distinct(v.history) && CursorOk(v.history, before) && v.take >= 1
       && var next := PageSpec(v.history, before, v.take).next;
          if next.None? then |visits| == 1
          else |visits| > 1 && Extends(v.history, visits[1].history) && Walk(visits[1..], next)
  }

  ghost function Collected(visits: seq<Visit>, before: Option<Signature>): seq<MinedBlock>
    requires Walk(visits, before)
    decreases |visits|
  {
    var page := PageSpec(visits[0].history, before, visits[0].take);
    page.blocks + if page.next.None? then [] else Collected(visits[1..], page.next)
  }

  /**
   Following `nextCursor` until it is null yields every mined block behind the start exactly
   once, newest first, whatever the page sizes and however the chain grows meanwhile.
   */
  lemma {:induction false} WalkCollectsAll(visits: seq<Visit>, before: Option<Signature>)
    requires Walk(visits, before)
    ensures Collected(visits, before) == Mined(Older(visits[0].history, before))
    decreases |visits|
  {
    var v := visits[0];
    var page := PageSpec(v.history, before, v.take);
    PageStep(v.history, before, v.take);
    if page.next.Some? {
      WalkCollectsAll(visits[1..], page.next);
      OlderStable(v.history, visits[1].history, page.next.value);
    }
  }

  /** The pages together show every successful entry with a mined block behind the start, field by field. */
  lemma WalkShowsAll(visits: seq<Visit>, before: Option<Signature>) returns (places: seq<nat>)
    requires Walk(visits, before)
    ensures var older := Older(visits[0].history, before);
            ShowsFirst(older, |older|, Collected(visits, before), places)
  {
    WalkCollectsAll(visits, before);
    places := MinedShows(Older(visits[0].history, before));
  }

  /** And the walk ends: the calls number at most the signatures behind the start, and one. */
  lemma {:induction false} WalkIsShort(visits: seq<Visit>, before: Option<Signature>)
    requires Walk(visits, before)
    ensures |visits| <= |Older(visits[0].history, before)| + 1
    decreases |visits|
  {
    var v := visits[0];
    var page := PageSpec(v.history, before, v.take);
    PageStep(v.history, before, v.take);
    if page.next.Some? {
      WalkIsShort(visits[1..], page.next);
      OlderStable(v.history, visits[1].history, page.next.value);
    }
  }

  /** From every start, and for every page size, such a walk exists: the pages come to an end. */
  lemma {:induction false} WalkEnds(h: seq<Entry>, before: Option<Signature>, take: nat) returns (visits: seq<Visit>)
    requires Distinct(h) && CursorOk(h, before) && take >= 1
    ensures Walk(visits, before) && visits[0] == Visit(h, take)
    decreases |Older(h, before)|
  {
    visits := [Visit(h, take)];
    var next := PageSpec(h, before, take).next;
    PageStep(h, before, take);
    if next.Some? {
      var rest := WalkEnds(h, next, take);
      visits := visits + rest;
      assert visits[1..] == rest;
      assert h[|h| - |h|..] == h;
    }
  }
}
