/**
 What holds over whole runs of the program: the supply bound, the ledger identity, exactly
 when mining and skipping succeed, the range of the target, and timing.
 */
module Ledger {
  import opened Arith
  import opened Wrappers
  import opened Target
  import opened Schedule
  import opened Program

  // ------------------------------------------------------------------ tokens

  /** Where the vault's tokens are: dust, rewards of skipped rounds, and the rest of the schedule. */
  lemma LedgerIdentity(s: State, oracle: Oracle, initial: Config)
    requires Inv(s, oracle, initial)
    ensures s.config.cumulativeMined as nat <= SCHEDULE_TOTAL < MINEABLE_BASE
    ensures s.config.blockHeight as nat == MinedCount(s.log) + s.config.emptyRounds as nat
    ensures s.config.miningOpen ==>
              s.vault - s.deposits == MINEABLE_BASE - s.config.cumulativeMined as nat
                                   == DUST + SkippedSum(s.log) + SCHEDULE_TOTAL
                                      - ScheduleSum(0, s.config.blockHeight as nat)
    ensures s.config.miningOpen ==> s.vault >= s.deposits + DUST
  {
    SupplyBound(s.log);
    RoundsAddUp(s.log);
    VaultCoversSchedule();
    ScheduleAtMost(Height(s.log));
  }

  /** What a miner has to bring: mining open, a valid solution, a hash under the target. */
  predicate Acceptable(c: Config, oracle: Oracle, miner: Pubkey, sub: Submission) {
    && c.miningOpen
    && oracle.isValid(c.currentChallenge, miner, c.blockHeight, sub)
    && Value(oracle.solutionHash(c.currentChallenge, miner, c.blockHeight, sub)) < Value(c.currentTarget)
  }

  /**
   An acceptable submission is paid exactly below height 25 * 378000; from there on it
   fails with `RewardZeroed`. The supply gate, the overflow checks and the vault balance
   never stop it. Whatever else fails is reported by the first check that it fails.
   */
  lemma MineOutcome(s: State, oracle: Oracle, initial: Config, miner: Pubkey, sub: Submission, clock: Clock,
      slotHash: Option<Bytes32>)
    requires Inv(s, oracle, initial)
    ensures var r, c := ApplyMine(s, oracle, miner, sub, clock, slotHash), s.config;
            && (r.Ok? <==> Acceptable(c, oracle, miner, sub) && slotHash.Some? && c.blockHeight as nat < 9_450_000)
            && (r == Err(RewardZeroed) <==> Acceptable(c, oracle, miner, sub) && c.blockHeight as nat >= 9_450_000)
            && (r == Err(BadSlotHashes) <==> && Acceptable(c, oracle, miner, sub) && slotHash.None?
                                             && c.blockHeight as nat < 9_450_000)
            && (r == Err(MiningNotOpen) <==> !c.miningOpen)
            && (r == Err(InvalidEquihash)
                <==> c.miningOpen && !oracle.isValid(c.currentChallenge, miner, c.blockHeight, sub))
            && (r == Err(AboveTarget)
                <==> && c.miningOpen && oracle.isValid(c.currentChallenge, miner, c.blockHeight, sub)
                     && Value(oracle.solutionHash(c.currentChallenge, miner, c.blockHeight, sub))
                        >= Value(c.currentTarget))
            && r != Err(SupplyExhausted) && r != Err(InsufficientFunds) && r != Err(ScheduleOverflow)
            && (r.Ok? ==> r.value.vault == s.vault - RewardAtHeight(c.blockHeight as nat))
  {
    SupplyBound(s.log);
    VaultCoversSchedule();
    RewardPaid(s.config.blockHeight as nat);
    OverflowsWhen(s.config, oracle, initial, s.log, s.start, true);
  }

  /**
   A stalled round can be skipped exactly when the timeout has passed and it is not the
   last one before the end of 64-bit heights.
   */
  lemma SkipOutcome(s: State, oracle: Oracle, initial: Config, clock: Clock, slotHash: Option<Bytes32>)
    requires Inv(s, oracle, initial)
    ensures var r, c := ApplyAdvanceEmptyRound(s, oracle, clock, slotHash), s.config;
            var late := c.currentRoundOpenSlot as nat + 150 <= clock.slot as nat;
            && (r.Ok? <==> && c.miningOpen && late && slotHash.Some?
                           && c.blockHeight as nat + 1 != 18_446_744_073_709_224_000)
            && (r == Err(MiningNotOpen) <==> !c.miningOpen)
            && (r == Err(RoundStillActive) <==> c.miningOpen && !late)
            && (r == Err(BadSlotHashes) <==> c.miningOpen && late && slotHash.None?)
  {
    OverflowsWhen(s.config, oracle, initial, s.log, s.start, false);
  }

  // ------------------------------------------------------------------ target

  ghost predicate NoTargetSet(log: seq<Event>) {
    forall i :: 0 <= i < |log| ==> !log[i].TargetSet?
  }

  /** Between two settings of the target its value is the retargets applied in turn. */
  lemma {:induction false} TargetBetween(log: seq<Event>, more: seq<Event>, initial: nat, start: Clock)
    requires NoTargetSet(more)
    ensures Windows(log, start) <= Windows(log + more, start)
    ensures TargetAfter(log + more, initial, start)
         == Retargeted(TargetAfter(log, initial, start), Windows(log + more, start)[|Windows(log, start)|..])
  {
    if more == [] {
      assert log + more == log;
    } else {
      var before := more[..|more| - 1];
      assert (log + more)[..|log + more| - 1] == log + before;
      TargetBetween(log, before, initial, start);
      var since := Windows(log + before, start)[|Windows(log, start)|..];
      var all := Windows(log + more, start)[|Windows(log, start)|..];
      if Retargets(log + more) {
        assert all[..|all| - 1] == since;
      } else {
        assert all == since;
      }
    }
  }

  /** Over `m` retargets without the admin the target stays within a factor of `2^m`. */
  lemma TargetRange(log: seq<Event>, more: seq<Event>, initial: nat, start: Clock)
    requires NoTargetSet(more) && TargetAfter(log, initial, start) < B * B * B * B
    ensures |Windows(log, start)| <= |Windows(log + more, start)|
    ensures var m := |Windows(log + more, start)| - |Windows(log, start)|;
            var before, after := TargetAfter(log, initial, start), TargetAfter(log + more, initial, start);
            && before / Pow2(m) <= after <= before * Pow2(m)
            && after < B * B * B * B
  {
    TargetBetween(log, more, initial, start);
    RetargetRun(TargetAfter(log, initial, start), Windows(log + more, start)[|Windows(log, start)|..]);
  }

  /** A zero target accepts nothing, and only the admin can lift it. */
  lemma ZeroTargetStops(s: State, oracle: Oracle, initial: Config, step: Step)
    requires Inv(s, oracle, initial) && Value(s.config.currentTarget) == 0
    requires Apply(s, oracle, step).Ok?
    ensures !step.Mine?
    ensures !step.SetTarget? ==> Value(Apply(s, oracle, step).value.config.currentTarget) == 0
  {
    if step.AdvanceEmptyRound? {
      NextTargetBytes(s.config.currentTarget, Elapsed(step.clock.unixTs, s.config.lastRetargetUnixTs));
      assert Retargeted(0, []) == 0;
      ZeroStays([Elapsed(step.clock.unixTs, s.config.lastRetargetUnixTs) as nat]);
    }
  }

  /** Renouncing is for ever: the history gains rounds but no target settings. */
  lemma {:induction false} RenouncedForever(s: State, oracle: Oracle, steps: seq<Step>)
    requires s.config.adminRenounced && s.config.admin == DEFAULT_PUBKEY
    ensures var after := Run(s, oracle, steps);
            && after.config.adminRenounced && after.config.admin == DEFAULT_PUBKEY
            && s.log <= after.log && NoTargetSet(after.log[|s.log|..])
  {
    if steps != [] {
      RenouncedForever(s, oracle, steps[..|steps| - 1]);
      RenouncedStep(Run(s, oracle, steps[..|steps| - 1]), oracle, steps[|steps| - 1], s.log);
    }
  }

  lemma RenouncedStep(s: State, oracle: Oracle, step: Step, earlier: seq<Event>)
    requires s.config.adminRenounced && s.config.admin == DEFAULT_PUBKEY
    requires earlier <= s.log && NoTargetSet(s.log[|earlier|..])
    ensures Apply(s, oracle, step).Ok? ==>
              var after := Apply(s, oracle, step).value;
              && after.config.adminRenounced && after.config.admin == DEFAULT_PUBKEY
              && earlier <= after.log && NoTargetSet(after.log[|earlier|..])
  {
  }

  // ------------------------------------------------------------------ timing

  /** The clock never goes back from one round to the next, and unix time is not negative. */
  ghost predicate Monotone(log: seq<Event>, start: Clock) {
    && start.unixTs >= 0
    && (log != [] ==>
          && Monotone(log[..|log| - 1], start)
          && (IsRound(log[|log| - 1]) ==>
                && LastRound(log[..|log| - 1], start).slot <= log[|log| - 1].clock.slot
                && LastRound(log[..|log| - 1], start).unixTs <= log[|log| - 1].clock.unixTs))
  }

  ghost function Sum(s: seq<nat>): nat {
    if s == [] then 0 else Sum(s[..|s| - 1]) + s[|s| - 1]
  }

  /** Skipping is slow: every empty round took at least 150 slots of the time since funding. */
  lemma {:induction false} EmptyRoundsTakeTime(log: seq<Event>, start: Clock)
    requires Monotone(log, start) && TimedOut(log, start)
    ensures start.slot as nat + 150 * EmptyCount(log) <= LastRound(log, start).slot as nat
  {
    if log != [] {
      EmptyRoundsTakeTime(log[..|log| - 1], start);
    }
  }

  lemma {:induction false} RetargetNotAfterRound(log: seq<Event>, start: Clock)
    requires Monotone(log, start)
    ensures 0 <= start.unixTs <= LastRetarget(log, start) <= LastRound(log, start).unixTs
  {
    if log != [] {
      RetargetNotAfterRound(log[..|log| - 1], start);
    }
  }

  /** The windows the retargets measured cover the time since funding without gap or overlap. */
  lemma {:induction false} WindowsCoverTime(log: seq<Event>, start: Clock)
    requires Monotone(log, start)
    ensures Sum(Windows(log, start)) == LastRetarget(log, start) as int - start.unixTs as int
  {
    if log != [] {
      var before := log[..|log| - 1];
      WindowsCoverTime(before, start);
      RetargetNotAfterRound(before, start);
      if Retargets(log) {
        var w := Elapsed(log[|log| - 1].clock.unixTs, LastRetarget(before, start)) as nat;
        assert (Windows(before, start) + [w])[..|Windows(before, start)|] == Windows(before, start);
      } else {
        assert Windows(log, start) == Windows(before, start);
      }
    }
  }

  // ------------------------------------------------------------------ reachable states

  /** The results above for every reachable state of the program. */
  lemma ReachableLedger(oracle: Oracle, admin: Pubkey, target: Bytes32, clock: Clock, steps: seq<Step>)
    ensures var s := Run(Initialized(oracle, admin, target, clock), oracle, steps);
            && s.config.currentEpochReward as nat == RewardAtHeight(s.config.blockHeight as nat)
            && s.config.cumulativeMined as nat == MinedSum(s.log) <= SCHEDULE_TOTAL < MINEABLE_BASE
            && (s.config.miningOpen ==>
                  s.vault - s.deposits
                  == DUST + SkippedSum(s.log) + (SCHEDULE_TOTAL - ScheduleSum(0, s.config.blockHeight as nat)))
            && (Monotone(s.log, s.start) ==>
                  150 * (s.config.emptyRounds as nat)
                  <= s.config.currentRoundOpenSlot as nat - s.start.slot as nat)
            && (Monotone(s.log, s.start) ==>
                  Sum(Windows(s.log, s.start)) == s.config.lastRetargetUnixTs as int - s.start.unixTs as int)
  {
    ReachableInv(oracle, admin, target, clock, steps);
    var init := Initialized(oracle, admin, target, clock);
    var s := Run(init, oracle, steps);
    LedgerIdentity(s, oracle, init.config);
    if Monotone(s.log, s.start) {
      EmptyRoundsTakeTime(s.log, s.start);
      WindowsCoverTime(s.log, s.start);
    }
  }
}
