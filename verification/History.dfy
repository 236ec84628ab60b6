/**
 The program's signature history as the RPC node serves it: newest first, read through a
 `before` cursor and a limit, and growing at the front while it is being read.
 */
module History {
  import opened Arith
  import opened Wrappers

  type Signature = string

  /** The fields of a "mined block H by W for R" log line. */
  datatype MineLog = MineLog(height: nat, winner: string, reward: nat)

  datatype Entry = Entry(sig: Signature, failed: bool, log: Option<MineLog>, time: nat)

  datatype MinedBlock = MinedBlock(sig: Signature, height: nat, winner: string, reward: nat, ts: nat)

  function FirstOf<T>(s: seq<T>, n: nat): seq<T> {
    s[..Min(n, |s|)]
  }

  // ------------------------------------------------------------------ positions

  /** The place of a signature in the history, or its length. */
  function Position(h: seq<Entry>, sig: Signature): (p: nat)
    ensures p <= |h|
  {
    if h == [] then 0
    else if h[0].sig == sig then 0
    else 1 + Position(h[1..], sig)
  }

  predicate Known(h: seq<Entry>, sig: Signature) {
    Position(h, sig) < |h|
  }

  /** No signature occurs twice: each is found at its own place. */
  ghost predicate Distinct(h: seq<Entry>) {
    forall p :: 0 <= p < |h| ==> Position(h, h[p].sig) == p
  }

  lemma {:induction false} PositionHolds(h: seq<Entry>, sig: Signature)
    requires Known(h, sig)
    ensures h[Position(h, sig)].sig == sig
  {
    if h[0].sig != sig {
      PositionHolds(h[1..], sig);
    }
  }

  /** What lies strictly behind the cursor; without a cursor, everything. */
  function Older(h: seq<Entry>, before: Option<Signature>): seq<Entry>
    requires before.Some? ==> Known(h, before.value)
  {
    if before.None? then h else h[Position(h, before.value) + 1..]
  }

  /** What lies strictly in front of the cursor; without a cursor, everything. */
  function Newer(h: seq<Entry>, until: Option<Signature>): seq<Entry> {
    if until.None? then h else h[..Position(h, until.value)]
  }

  ghost predicate CursorOk(h: seq<Entry>, before: Option<Signature>) {
    before.Some? ==> Known(h, before.value)
  }

  lemma DropDrop<T>(s: seq<T>, p: nat, q: nat)
    requires p + q <= |s|
    ensures s[p..][q..] == s[p + q..]
  {
  }

  /** Moving the cursor onto the p-th older entry leaves the rest of the older ones. */
  lemma OlderStep(h: seq<Entry>, before: Option<Signature>, p: nat)
    requires Distinct(h) && CursorOk(h, before) && p < |Older(h, before)|
    ensures Known(h, Older(h, before)[p].sig)
    ensures Older(h, Some(Older(h, before)[p].sig)) == Older(h, before)[p + 1..]
  {
    var start := if before.None? then 0 else Position(h, before.value) + 1;
    assert h[start..] == Older(h, before);
    assert h[start + p] == h[start..][p];
    assert Position(h, h[start + p].sig) == start + p;
    DropDrop(h, start, p + 1);
  }

  ghost predicate Extends(h: seq<Entry>, grown: seq<Entry>) {
    |h| <= |grown| && grown[|grown| - |h|..] == h
  }

  /** New signatures arrive in front, so what a cursor sees behind it never changes. */
  lemma OlderStable(h: seq<Entry>, grown: seq<Entry>, sig: Signature)
    requires Distinct(grown) && Extends(h, grown) && Known(h, sig)
    ensures Known(grown, sig) && Older(grown, Some(sig)) == Older(h, Some(sig))
  {
    var shift, p := |grown| - |h|, Position(h, sig);
    PositionHolds(h, sig);
    assert grown[shift..][p] == grown[shift + p];
    assert Position(grown, grown[shift + p].sig) == shift + p;
    DropDrop(grown, shift, p + 1);
  }

  /** The chain as seen at successive calls: it only grows, and never repeats a signature. */
  ghost predicate Growing(chain: nat -> seq<Entry>) {
    && (forall i {:trigger Distinct(chain(i))} :: Distinct(chain(i)))
    && (forall i, j {:trigger Extends(chain(i), chain(j))} :: i <= j ==> Extends(chain(i), chain(j)))
  }

  // ------------------------------------------------------------------ mined blocks

  predicate IsMined(e: Entry) {
    !e.failed && e.log.Some?
  }

  function BlockOf(e: Entry): MinedBlock
    requires IsMined(e)
  {
    MinedBlock(e.sig, e.log.value.height, e.log.value.winner, e.log.value.reward, e.time)
  }

  function Succeeded(s: seq<Entry>): seq<Entry> {
    if s == [] then [] else Succeeded(s[..|s| - 1]) + if s[|s| - 1].failed then [] else [s[|s| - 1]]
  }

  /** The mined blocks of a stretch of history, in its order. */
  function Mined(s: seq<Entry>): seq<MinedBlock> {
    if s == [] then [] else Mined(s[..|s| - 1]) + if IsMined(s[|s| - 1]) then [BlockOf(s[|s| - 1])] else []
  }

  lemma {:induction false} MinedConcat(a: seq<Entry>, b: seq<Entry>)
    ensures Mined(a + b) == Mined(a) + Mined(b)
  {
    if b == [] {
      assert a + b == a;
    } else {
      assert (a + b)[..|a + b| - 1] == a + b[..|b| - 1];
      MinedConcat(a, b[..|b| - 1]);
    }
  }

  lemma {:induction false} MinedSucceeded(s: seq<Entry>)
    ensures Mined(Succeeded(s)) == Mined(s)
  {
    if s != [] {
      var init, last := s[..|s| - 1], s[|s| - 1];
      MinedSucceeded(init);
      MinedConcat(Succeeded(init), if last.failed then [] else [last]);
      assert [last][..0] == [];
    }
  }

  lemma {:induction false} SucceededOnly(s: seq<Entry>)
    ensures forall i :: 0 <= i < |Succeeded(s)| ==> !Succeeded(s)[i].failed
  {
    if s != [] {
      SucceededOnly(s[..|s| - 1]);
    }
  }

  /** The last of the first `m` mined blocks stands at some entry; up to it there are just those. */
  lemma {:induction false} MinedCut(s: seq<Entry>, m: nat) returns (q: nat)
    requires 1 <= m <= |Mined(s)|
    ensures q < |s| && IsMined(s[q]) && BlockOf(s[q]) == Mined(s)[m - 1]
    ensures Mined(s[..q + 1]) == Mined(s)[..m]
  {
    var init := s[..|s| - 1];
    if m <= |Mined(init)| {
      q := MinedCut(init, m);
      assert s[..q + 1] == init[..q + 1];
    } else {
      q := |s| - 1;
      assert s[..q + 1] == s;
    }
  }

  /** A block shows an entry: the transaction went through, and every field is the entry's own. */
  ghost predicate Shows(b: MinedBlock, e: Entry) {
    !e.failed && b.sig == e.sig && e.log == Some(MineLog(b.height, b.winner, b.reward)) && b.ts == e.time
  }

  ghost predicate Increasing(places: seq<nat>, n: nat) {
    && (forall i :: 0 <= i < |places| ==> places[i] < n)
    && (forall i, j :: 0 <= i < j < |places| ==> places[i] < places[j])
  }

  /** Among its first `n` entries, those at `places` are the successful ones with a mined block. */
  ghost predicate MinedAt(s: seq<Entry>, n: nat, places: seq<nat>)
    requires n <= |s|
  {
    forall p :: 0 <= p < n ==> (p in places <==> !s[p].failed && s[p].log.Some?)
  }

  /** `blocks` show, in order, the mined entries among the first `n`, all of them and no others. */
  ghost predicate ShowsFirst(s: seq<Entry>, n: nat, blocks: seq<MinedBlock>, places: seq<nat>) {
    && n <= |s| && |places| == |blocks| && Increasing(places, n) && MinedAt(s, n, places)
    && forall i :: 0 <= i < |blocks| ==> Shows(blocks[i], s[places[i]])
  }

  lemma {:induction false} MinedShows(s: seq<Entry>) returns (places: seq<nat>)
    ensures ShowsFirst(s, |s|, Mined(s), places)
  {
    places := [];
    if s != [] {
      var init, last := s[..|s| - 1], s[|s| - 1];
      places := MinedShows(init);
      assert init + [last] == s;
      if IsMined(last) {
        ShowsOneMore(init, last, Mined(init), places);
        places := places + [|init|];
      } else {
        ShowsNoMore(init, last, Mined(init), places);
        assert Mined(s) == Mined(init);
      }
    }
  }

  lemma ShowsNoMore(s: seq<Entry>, e: Entry, blocks: seq<MinedBlock>, places: seq<nat>)
    requires ShowsFirst(s, |s|, blocks, places) && (e.failed || e.log.None?)
    ensures ShowsFirst(s + [e], |s| + 1, blocks, places)
  {
    assert forall i :: 0 <= i < |places| ==> places[i] < |s|;
  }

  lemma ShowsOneMore(s: seq<Entry>, e: Entry, blocks: seq<MinedBlock>, places: seq<nat>)
    requires ShowsFirst(s, |s|, blocks, places) && IsMined(e)
    ensures ShowsFirst(s + [e], |s| + 1, blocks + [BlockOf(e)], places + [|s|])
  {
    var longer, more := s + [e], places + [|s|];
    assert Increasing(more, |longer|);
    forall p | 0 <= p < |longer| ensures p in more <==> !longer[p].failed && longer[p].log.Some? {
      assert p in more <==> p in places || p == |s|;
    }
    assert Shows(BlockOf(e), e);
  }

  /** The first `m` of the mined blocks are those of a first part of the entries. */
  lemma MinedFirst(s: seq<Entry>, m: nat) returns (n: nat, places: seq<nat>)
    ensures ShowsFirst(s, n, FirstOf(Mined(s), m), places)
    ensures |FirstOf(Mined(s), m)| == m || n == |s|
  {
    if 1 <= m <= |Mined(s)| {
      var q := MinedCut(s, m);
      n := q + 1;
    } else {
      n := if m == 0 then 0 else |s|;
      assert s[..n] == if m == 0 then [] else s;
    }
    places := MinedShows(s[..n]);
  }

  lemma MinedSplit(s: seq<Entry>, p: nat)
    requires p <= |s|
    ensures Mined(s) == Mined(s[..p]) + Mined(s[p..])
  {
    assert s == s[..p] + s[p..];
    MinedConcat(s[..p], s[p..]);
  }
}
