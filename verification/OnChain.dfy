/**
 The program as it runs: instruction handlers that change a copy of the config account
 field by field and move tokens, with the account written back only when they succeed.
 */
module OnChain {
  import opened Wrappers
  import opened Target
  import opened Schedule
  import opened Program
  import opened Outcomes

  class EquiumConfig {
    var genesisSlot: u64
    var genesisUnixTs: i64
    var currentTarget: Bytes32
    var blockHeight: u64
    var currentChallenge: Bytes32
    var currentRoundOpenSlot: u64
    var currentRoundOpenUnixTs: i64
    var lastWinner: Pubkey
    var currentEpochReward: u64
    var nextHalvingBlock: u64
    var nextRetargetBlock: u64
    var lastRetargetUnixTs: i64
    var cumulativeMined: u64
    var emptyRounds: u64
    var miningOpen: bool
    var admin: Pubkey
    var adminRenounced: bool

    function View(): Config
      reads this
    {
      Config(genesisSlot, genesisUnixTs, currentTarget, blockHeight, currentChallenge, currentRoundOpenSlot,
             currentRoundOpenUnixTs, lastWinner, currentEpochReward, nextHalvingBlock, nextRetargetBlock,
             lastRetargetUnixTs, cumulativeMined, emptyRounds, miningOpen, admin, adminRenounced)
    }

    /** Deserializing the account. */
    constructor Load(c: Config)
      ensures View() == c
    {
      genesisSlot, genesisUnixTs := c.genesisSlot, c.genesisUnixTs;
      currentTarget, blockHeight, currentChallenge := c.currentTarget, c.blockHeight, c.currentChallenge;
      currentRoundOpenSlot, currentRoundOpenUnixTs := c.currentRoundOpenSlot, c.currentRoundOpenUnixTs;
      lastWinner, currentEpochReward := c.lastWinner, c.currentEpochReward;
      nextHalvingBlock, nextRetargetBlock := c.nextHalvingBlock, c.nextRetargetBlock;
      lastRetargetUnixTs, cumulativeMined, emptyRounds := c.lastRetargetUnixTs, c.cumulativeMined, c.emptyRounds;
      miningOpen, admin, adminRenounced := c.miningOpen, c.admin, c.adminRenounced;
    }

    /** Mining opens, and round timing is measured from now. */
    method Open(clock: Clock)
      modifies this
      ensures View() == Opened(old(View()), clock)
    {
      currentRoundOpenSlot := clock.slot;
      currentRoundOpenUnixTs := clock.unixTs;
      lastRetargetUnixTs := clock.unixTs;
      miningOpen := true;
    }

    /** The current reward is counted as mined. */
    method CountReward(total: u64)
      requires total as nat == cumulativeMined as nat + currentEpochReward as nat
      modifies this
      ensures View() == Paid(old(View()))
    {
      cumulativeMined := total;
    }

    /** The new height, challenge and opening time, and who won; false when the count of empty rounds overflows. */
    method OpenRound(newHeight: u64, challenge: Bytes32, clock: Clock, winner: Option<Pubkey>) returns (ok: bool)
      modifies this
      ensures ok <==> winner.Some? || old(emptyRounds) < U64_MAX
      ensures ok ==> View() == old(View()).(
                blockHeight := newHeight,
                currentChallenge := challenge,
                currentRoundOpenSlot := clock.slot,
                currentRoundOpenUnixTs := clock.unixTs,
                lastWinner := if winner.Some? then winner.value else old(lastWinner),
                emptyRounds := if winner.Some? then old(emptyRounds) else old(emptyRounds) + 1)
    {
      blockHeight := newHeight;
      currentChallenge := challenge;
      currentRoundOpenSlot := clock.slot;
      currentRoundOpenUnixTs := clock.unixTs;
      if winner.Some? {
        lastWinner := winner.value;
      } else {
        if emptyRounds == U64_MAX {
          return false;
        }
        emptyRounds := emptyRounds + 1;
      }
      return true;
    }

    /** The retarget block of a round transition; false when the next boundary overflows. */
    method Retarget(newHeight: u64, clock: Clock) returns (ok: bool)
      modifies this
      ensures ok <==> newHeight as nat + RETARGET_INTERVAL_BLOCKS <= U64_MAX as nat
      ensures ok ==> View() == old(View()).(
                currentTarget := NextTargetOf(old(currentTarget), Elapsed(clock.unixTs, old(lastRetargetUnixTs))),
                lastRetargetUnixTs := clock.unixTs,
                nextRetargetBlock := newHeight + RETARGET_INTERVAL_BLOCKS as u64)
      ensures currentEpochReward == old(currentEpochReward)
    {
      var actualSeconds := Elapsed(clock.unixTs, lastRetargetUnixTs);
      var next := NextTarget(currentTarget, actualSeconds);
      NextTargetBytes(currentTarget, actualSeconds);
      ValueInjective(next, NextTargetOf(currentTarget, actualSeconds));
      currentTarget := next;
      lastRetargetUnixTs := clock.unixTs;
      if newHeight as nat + RETARGET_INTERVAL_BLOCKS > U64_MAX as nat {
        return false;
      }
      nextRetargetBlock := newHeight + RETARGET_INTERVAL_BLOCKS as u64;
      return true;
    }

    /** The halving block of a round transition; false when the next boundary overflows. */
    method Halve(newHeight: u64) returns (ok: bool)
      modifies this
      ensures ok <==> newHeight as nat + HALVING_INTERVAL_BLOCKS <= U64_MAX as nat
      ensures ok ==> View() == old(View()).(
                currentEpochReward := old(currentEpochReward) / 2,
                nextHalvingBlock := newHeight + HALVING_INTERVAL_BLOCKS as u64)
    {
      currentEpochReward := currentEpochReward / 2;
      if newHeight as nat + HALVING_INTERVAL_BLOCKS > U64_MAX as nat {
        return false;
      }
      nextHalvingBlock := newHeight + HALVING_INTERVAL_BLOCKS as u64;
      return true;
    }

    /**
     Closes the round. On success the config is the advanced one; on an error it may be
     changed in part, and the caller must not write it back.
     */
    method AdvanceRound(oracle: Oracle, clock: Clock, slotHash: Option<Bytes32>, winner: Option<Pubkey>)
      returns (r: Result<u64, Error>)
      modifies this
      ensures match Program.AdvanceRound(old(View()), oracle, clock, slotHash, winner)
              case Ok(c) => View() == c && r == Ok(c.blockHeight)
              case Err(e) => r == Err(e)
    {
      if slotHash.None? {
        return Err(BadSlotHashes);
      }
      var winnerKey := if winner.Some? then winner.value else DEFAULT_PUBKEY;
      if blockHeight == U64_MAX {
        return Err(ScheduleOverflow);
      }
      var newHeight := blockHeight + 1;
      var newChallenge := oracle.nextChallenge(currentChallenge, winnerKey, slotHash.value);
      var counted := OpenRound(newHeight, newChallenge, clock, winner);
      if !counted {
        return Err(ScheduleOverflow);
      }
      if IsRetargetBoundary(newHeight as nat) {
        var ok := Retarget(newHeight, clock);
        if !ok {
          return Err(ScheduleOverflow);
        }
      }
      if IsHalvingBoundary(newHeight as nat) {
        var ok := Halve(newHeight);
        if !ok {
          return Err(ScheduleOverflow);
        }
      }
      return Ok(newHeight);
    }
  }

  /** The outcome a step must have: its new state on success, no change on an error. */
  ghost predicate Did<T>(before: State, after: State, oracle: Oracle, step: Step, r: Result<T, Error>) {
    match Apply(before, oracle, step)
    case Ok(s) => r.Ok? && after == s
    case Err(e) => r == Err(e) && after == before
  }

  class EquiumProgram {
    const oracle: Oracle
    ghost const initial: Config
    var config: EquiumConfig
    var vault: nat
    ghost var start: Clock
    ghost var deposits: nat
    ghost var log: seq<Event>

    ghost function Now(): State
      reads this, config
    {
      State(config.View(), vault, start, deposits, log)
    }

    ghost predicate Valid()
      reads this, config
    {
      Inv(Now(), oracle, initial)
    }

    /** The `initialize` instruction: an empty vault, mining closed. */
    constructor Initialize(oracle: Oracle, admin: Pubkey, initialTarget: Bytes32, clock: Clock)
      ensures this.oracle == oracle && fresh(config)
      ensures Now() == Initialized(oracle, admin, initialTarget, clock)
      ensures Started(Now(), oracle, admin, initialTarget, clock)
      ensures Valid()
    {
      var s := Initialized(oracle, admin, initialTarget, clock);
      this.oracle := oracle;
      initial := s.config;
      config := new EquiumConfig.Load(s.config);
      vault := 0;
      start := clock;
      deposits := 0;
      log := [];
      new;
      InitialInv(oracle, admin, initialTarget, clock);
      InitializeOutcome(oracle, admin, initialTarget, clock);
    }

    method FundVaultHandler(funder: Pubkey, source: nat, clock: Clock) returns (r: Result<(), Error>)
      modifies this
      ensures Did(old(Now()), Now(), oracle, Step.FundVault(funder, source, clock), r)
    {
      var cfg := new EquiumConfig.Load(config.View());
      if funder != cfg.admin {
        return Err(NotAdmin);
      }
      if cfg.miningOpen {
        return Err(AlreadyOpen);
      }
      if source < MINEABLE_BASE {
        return Err(InsufficientFunds);
      }
      cfg.Open(clock);
      config, vault, start := cfg, vault + MINEABLE_BASE, clock;
      return Ok(());
    }

    /** The Equihash and difficulty checks of a submission. */
    method VerifySubmission(cfg: EquiumConfig, miner: Pubkey, submission: Submission) returns (refused: Option<Error>)
      ensures refused == if !oracle.isValid(cfg.currentChallenge, miner, cfg.blockHeight, submission)
                         then Some(InvalidEquihash)
                         else if Value(oracle.solutionHash(cfg.currentChallenge, miner, cfg.blockHeight, submission))
                                 >= Value(cfg.currentTarget) then Some(AboveTarget)
                         else None
    {
      if !oracle.isValid(cfg.currentChallenge, miner, cfg.blockHeight, submission) {
        return Some(InvalidEquihash);
      }
      var under := HashUnderTarget(oracle.solutionHash(cfg.currentChallenge, miner, cfg.blockHeight, submission),
          cfg.currentTarget);
      return if under then None else Some(AboveTarget);
    }

    /** Everything that can refuse a submission before tokens move, and the reward it would get. */
    method CheckMine(cfg: EquiumConfig, miner: Pubkey, submission: Submission)
      returns (refused: Option<Error>, reward: u64)
      ensures refused == MineRefusal(cfg.View(), vault, oracle, miner, submission)
      ensures refused.None? ==> reward == cfg.currentEpochReward
    {
      reward := cfg.currentEpochReward;
      if !cfg.miningOpen {
        return Some(MiningNotOpen), reward;
      }
      refused := VerifySubmission(cfg, miner, submission);
      if refused.Some? {
        return;
      }
      if reward == 0 {
        return Some(RewardZeroed), reward;
      }
      var total := cfg.cumulativeMined as nat + reward as nat;
      if total > U64_MAX as nat {
        return Some(ScheduleOverflow), reward;
      }
      if total > MINEABLE_BASE {
        return Some(SupplyExhausted), reward;
      }
      if vault < reward as nat {
        return Some(InsufficientFunds), reward;
      }
    }

    method MineHandler(miner: Pubkey, submission: Submission, clock: Clock, slotHash: Option<Bytes32>)
      returns (r: Result<u64, Error>)
      modifies this
      ensures Did(old(Now()), Now(), oracle, Step.Mine(miner, submission, clock, slotHash), r)
      ensures r.Ok? ==> r.value == old(config.currentEpochReward)
    {
      var cfg := new EquiumConfig.Load(config.View());
      var refused, reward := CheckMine(cfg, miner, submission);
      if refused.Some? {
        return Err(refused.value);
      }
      cfg.CountReward(cfg.cumulativeMined + reward);
      var height := cfg.AdvanceRound(oracle, clock, slotHash, Some(miner));
      if height.Err? {
        return Err(height.error);
      }
      config, vault := cfg, vault - reward as nat;
      log := log + [Mined(miner, clock, slotHash.value)];
      return Ok(reward);
    }

    method AdvanceEmptyRoundHandler(clock: Clock, slotHash: Option<Bytes32>) returns (r: Result<u64, Error>)
      modifies this
      ensures Did(old(Now()), Now(), oracle, Step.AdvanceEmptyRound(clock, slotHash), r)
    {
      var cfg := new EquiumConfig.Load(config.View());
      if !cfg.miningOpen {
        return Err(MiningNotOpen);
      }
      if clock.slot < cfg.currentRoundOpenSlot {
        return Err(RoundStillActive);
      }
      var elapsed := clock.slot - cfg.currentRoundOpenSlot;
      if (elapsed as nat) < ROUND_TIMEOUT_SLOTS {
        return Err(RoundStillActive);
      }
      r := cfg.AdvanceRound(oracle, clock, slotHash, None);
      if r.Ok? {
        config := cfg;
        log := log + [Skipped(clock, slotHash.value)];
      }
    }

    method SetTargetHandler(signer: Pubkey, target: Bytes32) returns (r: Result<(), Error>)
      modifies this
      ensures Did(old(Now()), Now(), oracle, Step.SetTarget(signer, target), r)
    {
      var cfg := new EquiumConfig.Load(config.View());
      if signer != cfg.admin {
        return Err(NotAdmin);
      }
      if cfg.adminRenounced {
        return Err(AdminRenounced);
      }
      cfg.currentTarget := target;
      config := cfg;
      log := log + [TargetSet(target)];
      return Ok(());
    }

    method RenounceAdminHandler(signer: Pubkey) returns (r: Result<(), Error>)
      modifies this
      ensures Did(old(Now()), Now(), oracle, Step.RenounceAdmin(signer), r)
    {
      var cfg := new EquiumConfig.Load(config.View());
      if signer != cfg.admin {
        return Err(NotAdmin);
      }
      if cfg.adminRenounced {
        return Err(AdminRenounced);
      }
      cfg.adminRenounced := true;
      cfg.admin := DEFAULT_PUBKEY;
      config := cfg;
      return Ok(());
    }

    // The entry points: each handler keeps the invariant.

    method FundVault(funder: Pubkey, source: nat, clock: Clock) returns (r: Result<(), Error>)
      requires Valid()
      modifies this
      ensures Valid() && Did(old(Now()), Now(), oracle, Step.FundVault(funder, source, clock), r)
      ensures r.Ok? <==> funder == old(config.admin) && !old(config.miningOpen) && source >= 18_900_000_000_000
      ensures r.Ok? ==> Funded(old(Now()), Now(), clock)
    {
      ghost var before := Now();
      r := FundVaultHandler(funder, source, clock);
      if r.Ok? {
        StepKeepsInv(before, oracle, initial, Step.FundVault(funder, source, clock));
      }
    }

    method Mine(miner: Pubkey, submission: Submission, clock: Clock, slotHash: Option<Bytes32>)
        returns (r: Result<u64, Error>)
      requires Valid()
      modifies this
      ensures Valid() && Did(old(Now()), Now(), oracle, Step.Mine(miner, submission, clock, slotHash), r)
      ensures r.Ok? ==> slotHash.Some? && MineRecorded(old(Now()), Now(), oracle, miner, clock, slotHash.value)
      ensures r.Ok? ==> r.value as nat == RewardAtHeight(Height(old(log)))
    {
      ghost var before := Now();
      r := MineHandler(miner, submission, clock, slotHash);
      if r.Ok? {
        StepKeepsInv(before, oracle, initial, Step.Mine(miner, submission, clock, slotHash));
        MineRecords(before, oracle, miner, submission, clock, slotHash);
      }
    }

    method AdvanceEmptyRound(clock: Clock, slotHash: Option<Bytes32>) returns (r: Result<u64, Error>)
      requires Valid()
      modifies this
      ensures Valid() && Did(old(Now()), Now(), oracle, Step.AdvanceEmptyRound(clock, slotHash), r)
      ensures r.Ok? ==> slotHash.Some? && SkipRecorded(old(Now()), Now(), oracle, clock, slotHash.value)
    {
      ghost var before := Now();
      r := AdvanceEmptyRoundHandler(clock, slotHash);
      if r.Ok? {
        StepKeepsInv(before, oracle, initial, Step.AdvanceEmptyRound(clock, slotHash));
        SkipRecords(before, oracle, clock, slotHash);
      }
    }

    method SetTarget(signer: Pubkey, target: Bytes32) returns (r: Result<(), Error>)
      requires Valid()
      modifies this
      ensures Valid() && Did(old(Now()), Now(), oracle, Step.SetTarget(signer, target), r)
      ensures r.Ok? <==> signer == old(config.admin) && !old(config.adminRenounced)
      ensures r.Ok? ==> config.currentTarget == target && log == old(log) + [TargetSet(target)]
    {
      ghost var before := Now();
      r := SetTargetHandler(signer, target);
      if r.Ok? {
        StepKeepsInv(before, oracle, initial, Step.SetTarget(signer, target));
      }
    }

    method RenounceAdmin(signer: Pubkey) returns (r: Result<(), Error>)
      requires Valid()
      modifies this
      ensures Valid() && Did(old(Now()), Now(), oracle, Step.RenounceAdmin(signer), r)
      ensures r.Ok? <==> signer == old(config.admin) && !old(config.adminRenounced)
      ensures r.Ok? ==> config.adminRenounced && config.admin == Fill(0)
    {
      ghost var before := Now();
      r := RenounceAdminHandler(signer);
      if r.Ok? {
        StepKeepsInv(before, oracle, initial, Step.RenounceAdmin(signer));
      }
    }
  }
}
