/**
 The race for a nonce: worker threads, a shared stop flag, a channel with room for one
 winner, one receive and a join. Every atomic action of every thread is a step; a run is
 any interleaving.
 */
module Race {
  import opened Bits
  import opened Equihash
  import opened Wrappers

  type Soln = seq<byte>

  datatype Win = Win(nonce: Nonce, soln: Soln)

  /** `solve` is one search, `under` the difficulty test, `max` the budget of a thread. */
  datatype Game = Game(solve: Nonce -> Option<Soln>, under: Soln -> bool, max: nat)

  datatype Pc =
    | Loop                    // at the loop test
    | Searching(nonce: Nonce) // one try counted, its search running
    | Sending(win: Win)       // in the blocking send
    | Stopping                // about to raise the stop flag
    | Counting                // about to add its tries to the total
    | Done

  /** `found`: the thread has reached the send. */
  datatype Worker = Worker(pc: Pc, tried: nat, found: bool)

  datatype Main =
    | Waiting
    | Received(winner: Option<Win>)
    | Joining(winner: Option<Win>)
    | Returned(winner: Option<Win>, count: nat)

  datatype State = State(workers: seq<Worker>, stop: bool, queue: seq<Win>, total: nat, main: Main)

  datatype Action =
    | Begin(i: nat, nonce: Nonce) | Quit(i: nat) | Miss(i: nat) | Hit(i: nat)
    | Send(i: nat) | RaiseStop(i: nat) | AddTried(i: nat)
    | Receive | TimeOut | Disconnected | StopAll | Join

  predicate IsWin(g: Game, w: Win) {
    g.solve(w.nonce) == Some(w.soln) && g.under(w.soln)
  }

  ghost predicate AllDone(ws: seq<Worker>) {
    forall i :: 0 <= i < |ws| ==> ws[i].pc == Done
  }

  function Fresh(threads: nat): State {
    State(seq(threads, _ => Worker(Loop, 0, false)), false, [], 0, Waiting)
  }

  // ------------------------------------------------------------------ steps

  ghost predicate Enabled(g: Game, s: State, a: Action) {
    match a
    case Begin(i, _) => i < |s.workers| && s.workers[i].pc == Loop && s.workers[i].tried < g.max && !s.stop
    case Quit(i) => i < |s.workers| && s.workers[i].pc == Loop && (s.workers[i].tried >= g.max || s.stop)
    // A miss is a search without a winner; the GPU miner also misses when the device fails.
    case Miss(i) => i < |s.workers| && s.workers[i].pc.Searching?
    case Hit(i) =>
      && i < |s.workers| && s.workers[i].pc.Searching?
      && g.solve(s.workers[i].pc.nonce).Some? && g.under(g.solve(s.workers[i].pc.nonce).value)
    case Send(i) => i < |s.workers| && s.workers[i].pc.Sending? && s.queue == []
    case RaiseStop(i) => i < |s.workers| && s.workers[i].pc == Stopping
    case AddTried(i) => i < |s.workers| && s.workers[i].pc == Counting
    case Receive => s.main == Waiting && s.queue != []
    case TimeOut => s.main == Waiting && s.queue == []
    case Disconnected => s.main == Waiting && s.queue == [] && AllDone(s.workers)
    case StopAll => s.main.Received?
    case Join => s.main.Joining? && AllDone(s.workers)
  }

  ghost function Next(g: Game, s: State, a: Action): State
    requires Enabled(g, s, a)
  {
    match a
    case Begin(i, nonce) =>
      s.(workers := s.workers[i := s.workers[i].(pc := Searching(nonce), tried := s.workers[i].tried + 1)])
    case Quit(i) => s.(workers := s.workers[i := s.workers[i].(pc := Counting)])
    case Miss(i) => s.(workers := s.workers[i := s.workers[i].(pc := Loop)])
    case Hit(i) =>
      var nonce := s.workers[i].pc.nonce;
      s.(workers := s.workers[i := s.workers[i].(pc := Sending(Win(nonce, g.solve(nonce).value)), found := true)])
    case Send(i) => s.(workers := s.workers[i := s.workers[i].(pc := Stopping)], queue := [s.workers[i].pc.win])
    case RaiseStop(i) => s.(workers := s.workers[i := s.workers[i].(pc := Counting)], stop := true)
    case AddTried(i) => s.(workers := s.workers[i := s.workers[i].(pc := Done)], total := s.total + s.workers[i].tried)
    case Receive => s.(queue := s.queue[1..], main := Received(Some(s.queue[0])))
    case TimeOut => s.(main := Received(None))
    case Disconnected => s.(main := Received(None))
    case StopAll => s.(stop := true, main := Joining(s.main.winner))
    case Join => s.(main := Returned(s.main.winner, s.total))
  }

  /** `run` is a legal sequence of steps from `s`. */
  ghost predicate Legal(g: Game, s: State, run: seq<Action>)
    decreases run
  {
    run != [] ==> Enabled(g, s, run[0]) && Legal(g, Next(g, s, run[0]), run[1..])
  }

  ghost function After(g: Game, s: State, run: seq<Action>): State
    requires Legal(g, s, run)
    decreases run
  {
    if run == [] then s else After(g, Next(g, s, run[0]), run[1..])
  }

  // ------------------------------------------------------------------ the invariant

  ghost function Tries(ws: seq<Worker>): nat {
    if ws == [] then 0 else Tries(ws[..|ws| - 1]) + ws[|ws| - 1].tried
  }

  ghost function DoneTries(ws: seq<Worker>): nat {
    if ws == [] then 0 else DoneTries(ws[..|ws| - 1]) + if ws[|ws| - 1].pc == Done then ws[|ws| - 1].tried else 0
  }

  /** Threads that reached the send. */
  ghost function Finders(ws: seq<Worker>): nat {
    if ws == [] then 0 else Finders(ws[..|ws| - 1]) + if ws[|ws| - 1].found then 1 else 0
  }

  /** Threads that are in the send. */
  ghost function Senders(ws: seq<Worker>): nat {
    if ws == [] then 0 else Senders(ws[..|ws| - 1]) + if ws[|ws| - 1].pc.Sending? then 1 else 0
  }

  ghost function Winner(m: Main): Option<Win> {
    if m == Waiting then None else m.winner
  }

  /** Messages that left the channel. */
  ghost function Taken(m: Main): nat {
    if Winner(m).Some? then 1 else 0
  }

  ghost predicate WorkerOk(g: Game, w: Worker) {
    && w.tried <= g.max
    && (w.pc.Sending? ==> IsWin(g, w.pc.win))
    && (w.pc.Loop? || w.pc.Searching? ==> !w.found)
    && (w.pc.Sending? || w.pc.Stopping? ==> w.found)
    && (w.pc.Searching? || w.found ==> w.tried >= 1)
    && (w.found ==> HasWin(g))
  }

  /** Some nonce wins. */
  ghost predicate HasWin(g: Game) {
    exists w :: IsWin(g, w)
  }

  ghost predicate Inv(g: Game, s: State) {
    && (forall i :: 0 <= i < |s.workers| ==> WorkerOk(g, s.workers[i]))
    && |s.queue| <= 1
    && (forall i :: 0 <= i < |s.queue| ==> IsWin(g, s.queue[i]))
    && (Winner(s.main).Some? ==> IsWin(g, Winner(s.main).value))
    && Finders(s.workers) == Senders(s.workers) + |s.queue| + Taken(s.main)
    && s.total == DoneTries(s.workers)
    && (s.main.Joining? ==> s.stop)
    && (s.main.Returned? ==> AllDone(s.workers) && s.main.count == s.total)
  }

  /** Changing one worker changes each sum by that worker's share. */
  lemma {:induction false} Update(ws: seq<Worker>, i: nat, w: Worker)
    requires i < |ws|
    ensures Tries(ws[i := w]) == Tries(ws) - ws[i].tried + w.tried
    ensures Finders(ws[i := w]) == Finders(ws) - (if ws[i].found then 1 else 0) + (if w.found then 1 else 0)
    ensures Senders(ws[i := w]) == Senders(ws) - (if ws[i].pc.Sending? then 1 else 0) + (if w.pc.Sending? then 1 else 0)
    ensures DoneTries(ws[i := w])
         == DoneTries(ws) - (if ws[i].pc == Done then ws[i].tried else 0) + (if w.pc == Done then w.tried else 0)
  {
    var init := ws[..|ws| - 1];
    if i == |ws| - 1 {
      assert ws[i := w][..|ws| - 1] == init;
    } else {
      assert ws[i := w][..|ws| - 1] == init[i := w];
      Update(init, i, w);
    }
  }

  lemma {:induction false} FreshSums(threads: nat)
    ensures Tries(Fresh(threads).workers) == 0 && DoneTries(Fresh(threads).workers) == 0
    ensures Finders(Fresh(threads).workers) == 0 && Senders(Fresh(threads).workers) == 0
  {
    if threads > 0 {
      assert Fresh(threads).workers[..threads - 1] == Fresh(threads - 1).workers;
      FreshSums(threads - 1);
    }
  }

  lemma MainStepKeepsInv(g: Game, s: State, a: Action)
    requires Inv(g, s) && Enabled(g, s, a)
    requires a.Receive? || a.TimeOut? || a.Disconnected? || a.StopAll? || a.Join?
    ensures Inv(g, Next(g, s, a)) && Next(g, s, a).workers == s.workers
  {
  }

  lemma SearchStepKeepsInv(g: Game, s: State, a: Action)
    requires Inv(g, s) && Enabled(g, s, a)
    requires a.Begin? || a.Quit? || a.Miss? || a.Hit?
    ensures Inv(g, Next(g, s, a))
    ensures Finders(Next(g, s, a).workers) >= Finders(s.workers)
    ensures |Next(g, s, a).workers| == |s.workers|
  {
    var t := Next(g, s, a);
    assert WorkerOk(g, s.workers[a.i]);
    if a.Hit? {
      assert IsWin(g, t.workers[a.i].pc.win);
    }
    assert WorkerOk(g, t.workers[a.i]);
    Update(s.workers, a.i, t.workers[a.i]);
    assert s.workers[a.i].pc != Done;
    assert !AllDone(s.workers);
  }

  lemma EndStepKeepsInv(g: Game, s: State, a: Action)
    requires Inv(g, s) && Enabled(g, s, a)
    requires a.Send? || a.RaiseStop? || a.AddTried?
    ensures Inv(g, Next(g, s, a))
    ensures Finders(Next(g, s, a).workers) >= Finders(s.workers)
    ensures |Next(g, s, a).workers| == |s.workers|
  {
    var t := Next(g, s, a);
    assert WorkerOk(g, s.workers[a.i]);
    assert WorkerOk(g, t.workers[a.i]);
    Update(s.workers, a.i, t.workers[a.i]);
    assert s.workers[a.i].pc != Done;
    assert !AllDone(s.workers);
  }

  lemma StepKeepsInv(g: Game, s: State, a: Action)
    requires Inv(g, s) && Enabled(g, s, a)
    ensures Inv(g, Next(g, s, a))
    ensures Finders(Next(g, s, a).workers) >= Finders(s.workers)
    ensures |Next(g, s, a).workers| == |s.workers|
  {
    if a.Receive? || a.TimeOut? || a.Disconnected? || a.StopAll? || a.Join? {
      MainStepKeepsInv(g, s, a);
    } else if a.Send? || a.RaiseStop? || a.AddTried? {
      EndStepKeepsInv(g, s, a);
    } else {
      SearchStepKeepsInv(g, s, a);
    }
  }

  lemma {:induction false} RunKeepsInv(g: Game, s: State, run: seq<Action>)
    requires Inv(g, s) && Legal(g, s, run)
    ensures Inv(g, After(g, s, run))
    ensures Finders(After(g, s, run).workers) >= Finders(s.workers)
    ensures |After(g, s, run).workers| == |s.workers|
    decreases run
  {
    if run != [] {
      StepKeepsInv(g, s, run[0]);
      RunKeepsInv(g, Next(g, s, run[0]), run[1..]);
    }
  }

  // ------------------------------------------------------------------ safety

  lemma {:induction false} AllDoneSums(g: Game, ws: seq<Worker>)
    requires AllDone(ws) && forall i :: 0 <= i < |ws| ==> WorkerOk(g, ws[i])
    ensures DoneTries(ws) == Tries(ws) <= |ws| * g.max
    ensures Senders(ws) == 0
  {
    if ws != [] {
      AllDoneSums(g, ws[..|ws| - 1]);
      assert |ws| * g.max == (|ws| - 1) * g.max + g.max;
    }
  }

  /**
   Whatever the interleaving, a returned winner is a search result under the target, and
   the returned count is all tries of all threads, within their budgets.
   */
  lemma ReturnIsSound(g: Game, threads: nat, run: seq<Action>)
    requires Legal(g, Fresh(threads), run)
    requires After(g, Fresh(threads), run).main.Returned?
    ensures var s := After(g, Fresh(threads), run);
            && (s.main.winner.Some? ==> IsWin(g, s.main.winner.value))
            && s.main.count == Tries(s.workers) <= threads * g.max
  {
    FreshSums(threads);
    RunKeepsInv(g, Fresh(threads), run);
    AllDoneSums(g, After(g, Fresh(threads), run).workers);
  }

  // ------------------------------------------------------------------ every run is finite

  ghost function PcRank(g: Game, w: Worker): int {
    match w.pc
    case Loop => 2 * (g.max - w.tried) + 4
    case Searching(_) => 2 * (g.max - w.tried) + 5
    case Sending(_) => 3
    case Stopping => 2
    case Counting => 1
    case Done => 0
  }

  ghost function Ranks(g: Game, ws: seq<Worker>): int {
    if ws == [] then 0 else Ranks(g, ws[..|ws| - 1]) + PcRank(g, ws[|ws| - 1])
  }

  ghost function MainRank(m: Main): nat {
    match m
    case Waiting => 3
    case Received(_) => 2
    case Joining(_) => 1
    case Returned(_, _) => 0
  }

  ghost function Rank(g: Game, s: State): int {
    Ranks(g, s.workers) + MainRank(s.main)
  }

  lemma {:induction false} RanksUpdate(g: Game, ws: seq<Worker>, i: nat, w: Worker)
    requires i < |ws|
    ensures Ranks(g, ws[i := w]) == Ranks(g, ws) - PcRank(g, ws[i]) + PcRank(g, w)
  {
    var init := ws[..|ws| - 1];
    if i == |ws| - 1 {
      assert ws[i := w][..|ws| - 1] == init;
    } else {
      assert ws[i := w][..|ws| - 1] == init[i := w];
      RanksUpdate(g, init, i, w);
    }
  }

  lemma {:induction false} RanksNatural(g: Game, ws: seq<Worker>)
    requires forall i :: 0 <= i < |ws| ==> WorkerOk(g, ws[i])
    ensures 0 <= Ranks(g, ws) <= |ws| * (2 * g.max + 5)
  {
    if ws != [] {
      RanksNatural(g, ws[..|ws| - 1]);
      assert |ws| * (2 * g.max + 5) == (|ws| - 1) * (2 * g.max + 5) + (2 * g.max + 5);
    }
  }

  lemma StepLowersRank(g: Game, s: State, a: Action)
    requires Inv(g, s) && Enabled(g, s, a)
    ensures Rank(g, Next(g, s, a)) < Rank(g, s)
  {
    var t := Next(g, s, a);
    if t.workers != s.workers {
      RanksUpdate(g, s.workers, a.i, t.workers[a.i]);
    }
  }

  lemma {:induction false} RunLowersRank(g: Game, s: State, run: seq<Action>)
    requires Inv(g, s) && Legal(g, s, run)
    ensures Rank(g, After(g, s, run)) + |run| <= Rank(g, s)
    decreases run
  {
    if run != [] {
      StepKeepsInv(g, s, run[0]);
      StepLowersRank(g, s, run[0]);
      RunLowersRank(g, Next(g, s, run[0]), run[1..]);
    }
  }

  /** No schedule runs for ever: the number of steps is bounded by threads and budget. */
  lemma RunsAreFinite(g: Game, threads: nat, run: seq<Action>)
    requires Legal(g, Fresh(threads), run)
    ensures |run| <= threads * (2 * g.max + 5) + 3
  {
    FreshSums(threads);
    RunLowersRank(g, Fresh(threads), run);
    RunKeepsInv(g, Fresh(threads), run);
    RanksNatural(g, Fresh(threads).workers);
    RanksNatural(g, After(g, Fresh(threads), run).workers);
  }

  // ------------------------------------------------------------------ where runs end

  ghost predicate Halted(g: Game, s: State) {
    forall a :: !Enabled(g, s, a)
  }

  /** Nothing can happen but a time-out. */
  ghost predicate Stuck(g: Game, s: State) {
    forall a :: a != TimeOut ==> !Enabled(g, s, a)
  }

  lemma {:induction false} SenderCounts(ws: seq<Worker>, i: nat)
    requires i < |ws| && ws[i].pc.Sending?
    ensures Senders(ws) >= 1
  {
    if i < |ws| - 1 {
      SenderCounts(ws[..|ws| - 1], i);
    }
  }

  /** A thread that is not done and not in a full channel can always take a step. */
  lemma StuckWorker(g: Game, s: State, i: nat)
    requires Inv(g, s) && Stuck(g, s) && i < |s.workers|
    ensures s.workers[i].pc == Done || (s.workers[i].pc.Sending? && s.queue != [])
  {
    var w := s.workers[i];
    assert !Enabled(g, s, Begin(i, [])) && !Enabled(g, s, Quit(i)) && !Enabled(g, s, Miss(i));
    assert !Enabled(g, s, Send(i)) && !Enabled(g, s, RaiseStop(i)) && !Enabled(g, s, AddTried(i));
  }

  /**
   A run that can go no further has returned exactly when the threads that reached the
   send are no more than the message received and the one place in the channel.
   Otherwise the join waits for ever.
   */
  lemma HaltedIff(g: Game, s: State)
    requires Inv(g, s) && Halted(g, s)
    ensures s.main.Returned? || s.main.Joining?
    ensures s.main.Returned? <==> Finders(s.workers) <= 1 + Taken(s.main)
  {
    assert !Enabled(g, s, Receive) && !Enabled(g, s, TimeOut) && !Enabled(g, s, StopAll) && !Enabled(g, s, Join);
    forall i | 0 <= i < |s.workers|
      ensures s.workers[i].pc == Done || (s.workers[i].pc.Sending? && s.queue != [])
    {
      StuckWorker(g, s, i);
    }
    if AllDone(s.workers) {
      AllDoneSums(g, s.workers);
    } else {
      var i :| 0 <= i < |s.workers| && s.workers[i].pc != Done;
      SenderCounts(s.workers, i);
    }
  }

  /**
   For every interleaving that has come to its end: the caller got an answer if and only
   if at most two threads reached the send, or at most one when the receive timed out.
   */
  lemma RunsEnd(g: Game, threads: nat, run: seq<Action>)
    requires Legal(g, Fresh(threads), run) && Halted(g, After(g, Fresh(threads), run))
    ensures var s := After(g, Fresh(threads), run);
            && (s.main.Returned? <==> Finders(s.workers) <= if Winner(s.main).Some? then 2 else 1)
            && (s.main.Returned? ==> AllDone(s.workers))
  {
    FreshSums(threads);
    RunKeepsInv(g, Fresh(threads), run);
    HaltedIff(g, After(g, Fresh(threads), run));
  }

  /** A state that waits for the time-out alone does not exist: with all threads done the receive ends. */
  lemma StuckHalts(g: Game, s: State)
    requires Inv(g, s) && Stuck(g, s)
    ensures Halted(g, s)
  {
    forall i | 0 <= i < |s.workers|
      ensures s.workers[i].pc == Done || (s.workers[i].pc.Sending? && s.queue != [])
    {
      StuckWorker(g, s, i);
    }
    assert !Enabled(g, s, Disconnected);
  }

  /** Once three threads have reached the send, no continuation returns. */
  lemma ThreeNeverReturn(g: Game, s: State, run: seq<Action>)
    requires Inv(g, s) && Finders(s.workers) >= 3 && Legal(g, s, run)
    ensures !After(g, s, run).main.Returned?
  {
    RunKeepsInv(g, s, run);
    if AllDone(After(g, s, run).workers) {
      AllDoneSums(g, After(g, s, run).workers);
    }
  }

  ghost predicate Reaches(g: Game, s: State, run: seq<Action>, t: State) {
    Legal(g, s, run) && After(g, s, run) == t
  }

  lemma ReachesStep(g: Game, s: State, a: Action, t: State)
    requires Enabled(g, s, a) && Next(g, s, a) == t
    ensures Reaches(g, s, [a], t)
  {
    assert [a][1..] == [];
    assert Legal(g, t, []) && After(g, t, []) == t;
  }

  lemma {:induction false} ReachesThen(g: Game, s: State, a: seq<Action>, t: State, b: seq<Action>, u: State)
    requires Reaches(g, s, a, t) && Reaches(g, t, b, u)
    ensures Reaches(g, s, a + b, u)
    decreases a
  {
    if a == [] {
      assert a + b == b;
    } else {
      assert (a + b)[0] == a[0] && (a + b)[1..] == a[1..] + b;
      ReachesThen(g, Next(g, s, a[0]), a[1..], t, b, u);
    }
  }

  ghost predicate Untimed(run: seq<Action>) {
    forall i :: 0 <= i < |run| ==> run[i] != TimeOut
  }

  /** A waiting thread can draw the winning nonce and reach the send. */
  lemma CanFind(g: Game, s: State, i: nat, w: Win) returns (run: seq<Action>, t: State)
    requires IsWin(g, w) && g.max >= 1 && !s.stop
    requires i < |s.workers| && s.workers[i] == Worker(Loop, 0, false)
    ensures Reaches(g, s, run, t) && t == s.(workers := s.workers[i := Worker(Sending(w), 1, true)])
    ensures Untimed(run)
  {
    var begun := Next(g, s, Begin(i, w.nonce));
    t := Next(g, begun, Hit(i));
    ReachesStep(g, s, Begin(i, w.nonce), begun);
    ReachesStep(g, begun, Hit(i), t);
    run := [Begin(i, w.nonce)] + [Hit(i)];
    ReachesThen(g, s, [Begin(i, w.nonce)], begun, [Hit(i)], t);
  }

  /** With the channel empty a thread in the send can finish, leaving its winner there. */
  lemma CanFinish(g: Game, s: State, i: nat, w: Win) returns (run: seq<Action>, t: State)
    requires i < |s.workers| && s.workers[i] == Worker(Sending(w), 1, true) && s.queue == []
    ensures Reaches(g, s, run, t)
    ensures t == s.(workers := s.workers[i := Worker(Done, 1, true)], queue := [w], stop := true, total := s.total + 1)
    ensures Untimed(run)
  {
    var sent := Next(g, s, Send(i));
    var stopped := Next(g, sent, RaiseStop(i));
    t := Next(g, stopped, AddTried(i));
    ReachesStep(g, s, Send(i), sent);
    ReachesStep(g, sent, RaiseStop(i), stopped);
    ReachesStep(g, stopped, AddTried(i), t);
    ReachesThen(g, s, [Send(i)], sent, [RaiseStop(i)], stopped);
    ReachesThen(g, s, [Send(i)] + [RaiseStop(i)], stopped, [AddTried(i)], t);
    run := [Send(i)] + [RaiseStop(i)] + [AddTried(i)];
  }

  lemma ThreeCanFind(g: Game, w: Win) returns (run: seq<Action>, t: State)
    requires IsWin(g, w) && g.max >= 1
    ensures Reaches(g, Fresh(3), run, t)
    ensures var sending := Worker(Sending(w), 1, true);
            t == State([sending, sending, sending], false, [], 0, Waiting)
  {
    var a, s1 := CanFind(g, Fresh(3), 0, w);
    var b, s2 := CanFind(g, s1, 1, w);
    var c, s3 := CanFind(g, s2, 2, w);
    ReachesThen(g, Fresh(3), a, s1, b, s2);
    ReachesThen(g, Fresh(3), a + b, s2, c, s3);
    run, t := a + b + c, s3;
    var sending := Worker(Sending(w), 1, true);
    assert t.workers == [sending, sending, sending];
  }

  lemma CanReceive(g: Game, s: State, w: Win) returns (run: seq<Action>, t: State)
    requires s.main == Waiting && s.queue == [w]
    ensures Reaches(g, s, run, t) && Untimed(run) && t == s.(queue := [], stop := true, main := Joining(Some(w)))
  {
    var got := Next(g, s, Receive);
    t := Next(g, got, StopAll);
    ReachesStep(g, s, Receive, got);
    ReachesStep(g, got, StopAll, t);
    ReachesThen(g, s, [Receive], got, [StopAll], t);
    run := [Receive] + [StopAll];
  }

  /** Three threads with a winning nonce each: a run after which the join waits for ever. */
  lemma ThreeCanBlock(g: Game, w: Win) returns (run: seq<Action>)
    requires IsWin(g, w) && g.max >= 1
    ensures Legal(g, Fresh(3), run)
    ensures var s := After(g, Fresh(3), run);
            Halted(g, s) && s.main == Joining(Some(w)) && Finders(s.workers) == 3
  {
    var a, s1 := ThreeCanFind(g, w);
    var b, s2 := CanFinish(g, s1, 0, w);
    var c, s3 := CanReceive(g, s2, w);
    var d, s4 := CanFinish(g, s3, 1, w);
    ReachesThen(g, Fresh(3), a, s1, b, s2);
    ReachesThen(g, Fresh(3), a + b, s2, c, s3);
    ReachesThen(g, Fresh(3), a + b + c, s3, d, s4);
    run := a + b + c + d;
    var finished, blocked := Worker(Done, 1, true), Worker(Sending(w), 1, true);
    assert s4.workers == [finished, finished, blocked];
    ThreeFinders(s4.workers, finished, blocked);
    assert Halted(g, s4);
  }

  lemma ThreeFinders(ws: seq<Worker>, a: Worker, b: Worker)
    requires ws == [a, a, b] && a.found && b.found
    ensures Finders(ws) == 3
  {
    assert ws[..2] == [a, a] && [a, a][..1] == [a] && [a][..0] == [];
    assert Finders([a]) == 1;
    assert Finders([a, a]) == 2;
  }

  // ------------------------------------------------------------------ when the race always returns

  /** Every state can run to its end, without a time-out. */
  lemma {:induction false} CanHalt(g: Game, s: State) returns (run: seq<Action>, t: State)
    requires Inv(g, s)
    ensures Reaches(g, s, run, t) && Untimed(run) && Inv(g, t) && Halted(g, t)
    decreases Rank(g, s)
  {
    RanksNatural(g, s.workers);
    if Stuck(g, s) {
      StuckHalts(g, s);
      run, t := [], s;
    } else {
      var a :| a != TimeOut && Enabled(g, s, a);
      var next := Next(g, s, a);
      StepKeepsInv(g, s, a);
      StepLowersRank(g, s, a);
      var rest, end := CanHalt(g, next);
      ReachesStep(g, s, a, next);
      ReachesThen(g, s, [a], next, rest, end);
      run, t := [a] + rest, end;
    }
  }

  /** What the receive gave stays. */
  lemma {:induction false} WinnerStays(g: Game, s: State, run: seq<Action>)
    requires Legal(g, s, run) && s.main != Waiting
    ensures After(g, s, run).main != Waiting && Winner(After(g, s, run).main) == Winner(s.main)
    decreases run
  {
    if run != [] {
      WinnerStays(g, Next(g, s, run[0]), run[1..]);
    }
  }

  lemma {:induction false} FindersBounded(g: Game, ws: seq<Worker>)
    requires forall i :: 0 <= i < |ws| ==> WorkerOk(g, ws[i])
    ensures Finders(ws) <= |ws|
    ensures g.max == 0 || !HasWin(g) ==> Finders(ws) == 0
  {
    if ws != [] {
      FindersBounded(g, ws[..|ws| - 1]);
      assert WorkerOk(g, ws[|ws| - 1]);
    }
  }

  lemma FreshInv(g: Game, threads: nat)
    ensures Inv(g, Fresh(threads))
  {
    FreshSums(threads);
  }

  /** The first `m` threads can reach the send together. */
  lemma {:induction false} ManyCanFind(g: Game, threads: nat, m: nat, w: Win) returns (run: seq<Action>, t: State)
    requires m <= threads && IsWin(g, w) && g.max >= 1
    ensures Reaches(g, Fresh(threads), run, t) && Untimed(run) && Inv(g, t)
    ensures Finders(t.workers) == m && |t.workers| == threads && !t.stop && t.queue == [] && t.main == Waiting
    ensures forall i :: m <= i < threads ==> t.workers[i] == Worker(Loop, 0, false)
  {
    FreshInv(g, threads);
    FreshSums(threads);
    if m == 0 {
      run, t := [], Fresh(threads);
    } else {
      var before, s := ManyCanFind(g, threads, m - 1, w);
      var more, end := CanFind(g, s, m - 1, w);
      ReachesThen(g, Fresh(threads), before, s, more, end);
      RunKeepsInv(g, s, more);
      Update(s.workers, m - 1, Worker(Sending(w), 1, true));
      run, t := before + more, end;
    }
  }

  /** Two threads in the send when the receive times out: the join waits for ever. */
  lemma TwoCanBlock(g: Game, threads: nat, w: Win) returns (run: seq<Action>)
    requires threads >= 2 && IsWin(g, w) && g.max >= 1
    ensures Legal(g, Fresh(threads), run)
    ensures Halted(g, After(g, Fresh(threads), run)) && After(g, Fresh(threads), run).main == Joining(None)
  {
    var a, s := ManyCanFind(g, threads, 2, w);
    var late := Next(g, s, TimeOut);
    StepKeepsInv(g, s, TimeOut);
    ReachesStep(g, s, TimeOut, late);
    var b, end := CanHalt(g, late);
    ReachesThen(g, Fresh(threads), a, s, [TimeOut], late);
    ReachesThen(g, Fresh(threads), a + [TimeOut], late, b, end);
    run := a + [TimeOut] + b;
    RunKeepsInv(g, late, b);
    WinnerStays(g, late, b);
    HaltedIff(g, end);
  }

  /** Three threads in the send: the join waits for ever without any time-out. */
  lemma ManyCanBlock(g: Game, threads: nat, w: Win) returns (run: seq<Action>)
    requires threads >= 3 && IsWin(g, w) && g.max >= 1
    ensures Legal(g, Fresh(threads), run) && Untimed(run)
    ensures Halted(g, After(g, Fresh(threads), run)) && !After(g, Fresh(threads), run).main.Returned?
  {
    var a, s := ManyCanFind(g, threads, 3, w);
    var b, end := CanHalt(g, s);
    ReachesThen(g, Fresh(threads), a, s, b, end);
    run := a + b;
    RunKeepsInv(g, s, b);
    HaltedIff(g, end);
  }

  /** Every schedule that has come to its end has given the caller an answer. */
  ghost predicate AlwaysReturns(g: Game, threads: nat) {
    forall run :: Legal(g, Fresh(threads), run) && Halted(g, After(g, Fresh(threads), run)) ==>
      After(g, Fresh(threads), run).main.Returned?
  }

  /** The same when the receive never times out. */
  ghost predicate AlwaysReturnsInTime(g: Game, threads: nat) {
    forall run :: Legal(g, Fresh(threads), run) && Halted(g, After(g, Fresh(threads), run)) && Untimed(run) ==>
      After(g, Fresh(threads), run).main.Returned?
  }

  lemma FinalFinders(g: Game, threads: nat, run: seq<Action>)
    requires Legal(g, Fresh(threads), run)
    ensures Inv(g, After(g, Fresh(threads), run)) && Finders(After(g, Fresh(threads), run).workers) <= threads
    ensures g.max == 0 || !HasWin(g) ==> Finders(After(g, Fresh(threads), run).workers) == 0
  {
    FreshInv(g, threads);
    RunKeepsInv(g, Fresh(threads), run);
    FindersBounded(g, After(g, Fresh(threads), run).workers);
  }

  /** The race returns whatever happens exactly with one thread, no budget or nothing to win. */
  lemma AlwaysReturnsIff(g: Game, threads: nat)
    ensures AlwaysReturns(g, threads) <==> threads <= 1 || g.max == 0 || !HasWin(g)
  {
    if threads <= 1 || g.max == 0 || !HasWin(g) {
      forall run | Legal(g, Fresh(threads), run) && Halted(g, After(g, Fresh(threads), run))
        ensures After(g, Fresh(threads), run).main.Returned?
      {
        FinalFinders(g, threads, run);
        HaltedIff(g, After(g, Fresh(threads), run));
      }
    } else {
      var w :| IsWin(g, w);
      var run := TwoCanBlock(g, threads, w);
    }
  }

  /** A winner that was sent is not passed over: it stays in the channel until the receive takes it. */
  lemma {:induction false} SentIsReceived(g: Game, s: State, run: seq<Action>)
    requires Legal(g, s, run) && s.main == Waiting && |s.queue| == 1
    ensures var t := After(g, s, run);
            if t.main == Waiting then t.queue == s.queue else Winner(t.main) == Some(s.queue[0])
    decreases run
  {
    if run != [] {
      var next := Next(g, s, run[0]);
      if next.main == Waiting {
        SentIsReceived(g, next, run[1..]);
      } else {
        WinnerStays(g, next, run[1..]);
      }
    }
  }

  /** A receive that ended without a message and without a time-out found all threads done and nothing sent. */
  ghost predicate Quiet(s: State) {
    s.main != Waiting && Winner(s.main).None? ==> AllDone(s.workers) && s.queue == []
  }

  lemma {:induction false} RunKeepsQuiet(g: Game, s: State, run: seq<Action>)
    requires Legal(g, s, run) && Untimed(run) && Quiet(s)
    ensures Quiet(After(g, s, run))
    decreases run
  {
    if run != [] {
      assert run[0] != TimeOut;
      RunKeepsQuiet(g, Next(g, s, run[0]), run[1..]);
    }
  }

  lemma QuietReturns(g: Game, s: State)
    requires Inv(g, s) && Halted(g, s) && Quiet(s) && Finders(s.workers) <= 2
    ensures s.main.Returned?
  {
    HaltedIff(g, s);
    assert !Enabled(g, s, Join);
  }

  /** Without a time-out two threads are safe as well. */
  lemma AlwaysReturnsInTimeIff(g: Game, threads: nat)
    ensures AlwaysReturnsInTime(g, threads) <==> threads <= 2 || g.max == 0 || !HasWin(g)
  {
    if threads <= 2 || g.max == 0 || !HasWin(g) {
      forall run | Legal(g, Fresh(threads), run) && Halted(g, After(g, Fresh(threads), run)) && Untimed(run)
        ensures After(g, Fresh(threads), run).main.Returned?
      {
        FinalFinders(g, threads, run);
        RunKeepsQuiet(g, Fresh(threads), run);
        QuietReturns(g, After(g, Fresh(threads), run));
      }
    } else {
      var w :| IsWin(g, w);
      var run := ManyCanBlock(g, threads, w);
    }
  }

  // ------------------------------------------------------------------ what is tried and counted

  ghost function Begins(run: seq<Action>): nat {
    if run == [] then 0 else (if run[0].Begin? then 1 else 0) + Begins(run[1..])
  }

  lemma StepTries(g: Game, s: State, a: Action)
    requires Enabled(g, s, a)
    ensures Tries(Next(g, s, a).workers) == Tries(s.workers) + if a.Begin? then 1 else 0
    ensures a.Begin? ==> !s.stop
    ensures s.stop ==> Next(g, s, a).stop
  {
    if !(a.Receive? || a.TimeOut? || a.Disconnected? || a.StopAll? || a.Join?) {
      Update(s.workers, a.i, Next(g, s, a).workers[a.i]);
    }
  }

  /** The tries of all threads are the nonces drawn in the run. */
  lemma {:induction false} TriesAreBegins(g: Game, s: State, run: seq<Action>)
    requires Legal(g, s, run)
    ensures Tries(After(g, s, run).workers) == Tries(s.workers) + Begins(run)
    decreases run
  {
    if run != [] {
      StepTries(g, s, run[0]);
      TriesAreBegins(g, Next(g, s, run[0]), run[1..]);
    }
  }

  /** Once the stop flag is up it stays up, and no thread draws another nonce. */
  lemma {:induction false} StopIsFinal(g: Game, s: State, run: seq<Action>)
    requires s.stop && Legal(g, s, run)
    ensures After(g, s, run).stop
    ensures Begins(run) == 0 && Tries(After(g, s, run).workers) == Tries(s.workers)
    decreases run
  {
    if run != [] {
      StepTries(g, s, run[0]);
      StopIsFinal(g, Next(g, s, run[0]), run[1..]);
    }
  }

  /** The count returned is the number of nonces drawn before the stop flag went up. */
  lemma CountedAtStop(g: Game, threads: nat, run: seq<Action>, rest: seq<Action>)
    requires Legal(g, Fresh(threads), run) && After(g, Fresh(threads), run).stop
    requires Legal(g, After(g, Fresh(threads), run), rest)
    requires After(g, After(g, Fresh(threads), run), rest).main.Returned?
    ensures After(g, After(g, Fresh(threads), run), rest).main.count == Begins(run)
  {
    var stopped := After(g, Fresh(threads), run);
    FreshInv(g, threads);
    FreshSums(threads);
    TriesAreBegins(g, Fresh(threads), run);
    RunKeepsInv(g, Fresh(threads), run);
    RunKeepsInv(g, stopped, rest);
    StopIsFinal(g, stopped, rest);
    AllDoneSums(g, After(g, stopped, rest).workers);
  }

  ghost predicate Drawn(run: seq<Action>, nonce: Nonce) {
    exists k :: 0 <= k < |run| && run[k].Begin? && run[k].nonce == nonce
  }

  /** Every nonce in a thread, in the channel or with the caller is among `nonces`. */
  ghost predicate Within(s: State, nonces: iset<Nonce>) {
    && (forall i :: 0 <= i < |s.workers| ==>
          && (s.workers[i].pc.Searching? ==> s.workers[i].pc.nonce in nonces)
          && (s.workers[i].pc.Sending? ==> s.workers[i].pc.win.nonce in nonces))
    && (forall i :: 0 <= i < |s.queue| ==> s.queue[i].nonce in nonces)
    && (Winner(s.main).Some? ==> Winner(s.main).value.nonce in nonces)
  }

  ghost function DrawnNonces(run: seq<Action>): iset<Nonce> {
    iset nonce: Nonce | Drawn(run, nonce)
  }

  lemma {:induction false} RunStaysWithin(g: Game, s: State, nonces: iset<Nonce>, run: seq<Action>)
    requires Legal(g, s, run) && Within(s, nonces)
    ensures Within(After(g, s, run), nonces + DrawnNonces(run))
    decreases run
  {
    if run != [] {
      var rest := run[1..];
      var first := nonces + if run[0].Begin? then iset{run[0].nonce} else iset{};
      RunStaysWithin(g, Next(g, s, run[0]), first, rest);
      forall nonce | nonce in first + DrawnNonces(rest) ensures nonce in nonces + DrawnNonces(run) {
        if Drawn(rest, nonce) {
          var k :| 0 <= k < |rest| && rest[k].Begin? && rest[k].nonce == nonce;
          assert run[k + 1] == rest[k];
        }
      }
    }
  }

  /** The nonce of the winner is one that a thread drew in this run. */
  lemma WinnerWasDrawn(g: Game, threads: nat, run: seq<Action>)
    requires Legal(g, Fresh(threads), run)
    requires Winner(After(g, Fresh(threads), run).main).Some?
    ensures Drawn(run, Winner(After(g, Fresh(threads), run).main).value.nonce)
  {
    RunStaysWithin(g, Fresh(threads), iset{}, run);
  }

  lemma {:induction false} FinderCounts(ws: seq<Worker>, i: nat)
    requires i < |ws| && ws[i].found
    ensures Finders(ws) >= 1
  {
    if i < |ws| - 1 {
      FinderCounts(ws[..|ws| - 1], i);
    }
  }

  /** While nobody has found anything, a thread leaves its loop only with its budget used up. */
  ghost predicate NobodyYet(g: Game, s: State) {
    Finders(s.workers) == 0 && Winner(s.main).None? ==>
      && (s.main == Waiting ==> !s.stop)
      && (s.main != Waiting ==> AllDone(s.workers))
      && forall i :: 0 <= i < |s.workers| ==>
           s.workers[i].pc.Loop? || s.workers[i].pc.Searching? || s.workers[i].tried == g.max
  }

  lemma StepKeepsNobodyYet(g: Game, s: State, a: Action)
    requires Inv(g, s) && NobodyYet(g, s) && Enabled(g, s, a) && a != TimeOut
    ensures NobodyYet(g, Next(g, s, a))
  {
    StepKeepsInv(g, s, a);
    if a.RaiseStop? {
      FinderCounts(s.workers, a.i);
    } else if a.Hit? {
      FinderCounts(Next(g, s, a).workers, a.i);
    }
  }

  lemma {:induction false} RunKeepsNobodyYet(g: Game, s: State, run: seq<Action>)
    requires Inv(g, s) && NobodyYet(g, s) && Legal(g, s, run) && Untimed(run)
    ensures NobodyYet(g, After(g, s, run))
    decreases run
  {
    if run != [] {
      assert run[0] != TimeOut;
      StepKeepsInv(g, s, run[0]);
      StepKeepsNobodyYet(g, s, run[0]);
      RunKeepsNobodyYet(g, Next(g, s, run[0]), run[1..]);
    }
  }

  lemma {:induction false} BudgetSum(g: Game, ws: seq<Worker>)
    requires forall i :: 0 <= i < |ws| ==> ws[i].tried == g.max
    ensures Tries(ws) == |ws| * g.max
  {
    if ws != [] {
      BudgetSum(g, ws[..|ws| - 1]);
      assert |ws| * g.max == (|ws| - 1) * g.max + g.max;
    }
  }

  /** Without a time-out, the race gives up only after every thread has used up its budget. */
  lemma GivesUpAtBudget(g: Game, threads: nat, run: seq<Action>)
    requires Legal(g, Fresh(threads), run) && Untimed(run)
    requires After(g, Fresh(threads), run).main.Returned? && After(g, Fresh(threads), run).main.winner.None?
    ensures After(g, Fresh(threads), run).main.count == threads * g.max
  {
    var s := After(g, Fresh(threads), run);
    FreshInv(g, threads);
    FreshSums(threads);
    RunKeepsInv(g, Fresh(threads), run);
    RunKeepsNobodyYet(g, Fresh(threads), run);
    RunKeepsQuiet(g, Fresh(threads), run);
    AllDoneSums(g, s.workers);
    BudgetSum(g, s.workers);
  }

  lemma ReachesMore(g: Game, s: State, run: seq<Action>, t: State, a: Action) returns (u: State)
    requires Reaches(g, s, run, t) && Enabled(g, t, a)
    ensures u == Next(g, t, a) && Reaches(g, s, run + [a], u)
  {
    u := Next(g, t, a);
    ReachesStep(g, t, a, u);
    ReachesThen(g, s, run, t, [a], u);
  }

  /** One thread has lost its first try when the other wins and raises the flag. */
  lemma OneLostOneWon(g: Game, w: Win, lost: Nonce) returns (run: seq<Action>, t: State)
    requires IsWin(g, w) && g.max >= 1
    ensures Reaches(g, Fresh(2), run, t) && Untimed(run)
    ensures t == State([Worker(Loop, 1, false), Worker(Done, 1, true)], true, [w], 1, Waiting)
  {
    var begun := Next(g, Fresh(2), Begin(0, lost));
    ReachesStep(g, Fresh(2), Begin(0, lost), begun);
    var missed := ReachesMore(g, Fresh(2), [Begin(0, lost)], begun, Miss(0));
    var a := [Begin(0, lost)] + [Miss(0)];
    assert missed == State([Worker(Loop, 1, false), Worker(Loop, 0, false)], false, [], 0, Waiting);
    var b, found := CanFind(g, missed, 1, w);
    var c, done := CanFinish(g, found, 1, w);
    ReachesThen(g, Fresh(2), a, missed, b, found);
    ReachesThen(g, Fresh(2), a + b, found, c, done);
    run, t := a + b + c, done;
    assert t.workers == [Worker(Loop, 1, false), Worker(Done, 1, true)];
  }

  /** The flag sends the other thread home with budget left: the caller gets the winner and two tries. */
  lemma FlagEndsSearch(g: Game, w: Win, lost: Nonce) returns (run: seq<Action>)
    requires IsWin(g, w) && g.max >= 1
    ensures Legal(g, Fresh(2), run) && Untimed(run)
    ensures After(g, Fresh(2), run).main == Returned(Some(w), 2)
  {
    var a, won := OneLostOneWon(g, w, lost);
    var home := ReachesMore(g, Fresh(2), a, won, Quit(0));
    var counted := ReachesMore(g, Fresh(2), a + [Quit(0)], home, AddTried(0));
    assert counted.workers == [Worker(Done, 1, false), Worker(Done, 1, true)];
    var b := a + [Quit(0)] + [AddTried(0)];
    var c, joining := CanReceive(g, counted, w);
    ReachesThen(g, Fresh(2), b, counted, c, joining);
    var end := ReachesMore(g, Fresh(2), b + c, joining, Join);
    run := b + c + [Join];
  }
}
