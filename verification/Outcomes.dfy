/**
 What each instruction does to the accounts and the history, field by field and in plain
 numbers, and who may do it.
 */
module Outcomes {
  import opened Wrappers
  import opened Target
  import opened Program

  // ------------------------------------------------------------------ closing a round

  /** Seconds since the last retarget, none before it, within 63 bits. */
  ghost function Seconds(now: i64, last: i64): nat {
    var d := now as int - last as int;
    if d < 0 then 0 else if d >= 0x8000_0000_0000_0000 then 0x7FFF_FFFF_FFFF_FFFF else d
  }

  /** A target scaled by the clamped time over the hour planned for sixty blocks, within 256 bits. */
  ghost predicate IsNextTarget(was: Bytes32, now: Bytes32, seconds: nat) {
    var clamped := if seconds < 1800 then 1800 else if seconds > 7200 then 7200 else seconds;
    var scaled := Value(was) * clamped / 3600;
    Value(now) == if scaled < B * B * B * B then scaled else B * B * B * B - 1
  }

  /** Every field after a round is closed at `clock` with the challenge `challenge`. */
  ghost predicate RoundClosed(was: Config, now: Config, challenge: Bytes32, clock: Clock) {
    && now.blockHeight as nat == was.blockHeight as nat + 1
    && now.currentChallenge == challenge
    && now.currentRoundOpenSlot == clock.slot && now.currentRoundOpenUnixTs == clock.unixTs
    && (if now.blockHeight as nat % 60 == 0
        then && IsNextTarget(was.currentTarget, now.currentTarget, Seconds(clock.unixTs, was.lastRetargetUnixTs))
             && now.lastRetargetUnixTs == clock.unixTs
             && now.nextRetargetBlock as nat == now.blockHeight as nat + 60
        else && now.currentTarget == was.currentTarget && now.lastRetargetUnixTs == was.lastRetargetUnixTs
             && now.nextRetargetBlock == was.nextRetargetBlock)
    && (if now.blockHeight as nat % 378_000 == 0
        then && now.currentEpochReward as nat == was.currentEpochReward as nat / 2
             && now.nextHalvingBlock as nat == now.blockHeight as nat + 378_000
        else && now.currentEpochReward == was.currentEpochReward && now.nextHalvingBlock == was.nextHalvingBlock)
    && now.genesisSlot == was.genesisSlot && now.genesisUnixTs == was.genesisUnixTs
    && now.miningOpen == was.miningOpen && now.admin == was.admin && now.adminRenounced == was.adminRenounced
  }

  lemma RoundOutcome(c: Config, challenge: Bytes32, clock: Clock, winner: Option<Pubkey>)
    requires !Overflows(c, winner.Some?)
    ensures RoundClosed(c, Advanced(c, challenge, clock, winner), challenge, clock)
  {
    var seconds := Elapsed(clock.unixTs, c.lastRetargetUnixTs);
    NextTargetBytes(c.currentTarget, seconds);
  }

  // ------------------------------------------------------------------ mining and skipping

  /** What a mined round leaves: the miner is recorded, credited and bound into the next challenge. */
  ghost predicate MineRecorded(s: State, t: State, oracle: Oracle, miner: Pubkey, clock: Clock, entropy: Bytes32) {
    && t.log == s.log + [Mined(miner, clock, entropy)]
    && RoundClosed(s.config, t.config, oracle.nextChallenge(s.config.currentChallenge, miner, entropy), clock)
    && t.config.lastWinner == miner && t.config.emptyRounds == s.config.emptyRounds
    && t.config.cumulativeMined as nat == s.config.cumulativeMined as nat + s.config.currentEpochReward as nat
    && t.vault == s.vault - s.config.currentEpochReward as nat
    && t.deposits == s.deposits && t.start == s.start
  }

  lemma MineRecords(s: State, oracle: Oracle, miner: Pubkey, sub: Submission, clock: Clock, slotHash: Option<Bytes32>)
    requires ApplyMine(s, oracle, miner, sub, clock, slotHash).Ok?
    ensures slotHash.Some?
    ensures MineRecorded(s, ApplyMine(s, oracle, miner, sub, clock, slotHash).value, oracle, miner, clock,
                         slotHash.value)
  {
    RoundOutcome(Paid(s.config), oracle.nextChallenge(s.config.currentChallenge, miner, slotHash.value), clock,
                 Some(miner));
  }

  /** What a skipped round leaves: nobody wins, nothing is paid, and the default key goes into the challenge. */
  ghost predicate SkipRecorded(s: State, t: State, oracle: Oracle, clock: Clock, entropy: Bytes32) {
    && t.log == s.log + [Skipped(clock, entropy)]
    && RoundClosed(s.config, t.config, oracle.nextChallenge(s.config.currentChallenge, Fill(0), entropy), clock)
    && t.config.lastWinner == s.config.lastWinner
    && t.config.emptyRounds as nat == s.config.emptyRounds as nat + 1
    && t.config.cumulativeMined == s.config.cumulativeMined && t.vault == s.vault
    && t.deposits == s.deposits && t.start == s.start
  }

  lemma SkipRecords(s: State, oracle: Oracle, clock: Clock, slotHash: Option<Bytes32>)
    requires ApplyAdvanceEmptyRound(s, oracle, clock, slotHash).Ok?
    ensures slotHash.Some?
    ensures SkipRecorded(s, ApplyAdvanceEmptyRound(s, oracle, clock, slotHash).value, oracle, clock, slotHash.value)
  {
    RoundOutcome(s.config, oracle.nextChallenge(s.config.currentChallenge, Fill(0), slotHash.value), clock, None);
  }

  /** The history is what the successful steps say, each in its place. */
  ghost function Events(step: Step): seq<Event> {
    match step
    case Mine(miner, _, clock, Some(entropy)) => [Mined(miner, clock, entropy)]
    case AdvanceEmptyRound(clock, Some(entropy)) => [Skipped(clock, entropy)]
    case SetTarget(_, target) => [TargetSet(target)]
    case _ => []
  }

  ghost function EventsOf(s: State, oracle: Oracle, steps: seq<Step>): seq<Event> {
    if steps == [] then [] else
      var init, last := steps[..|steps| - 1], steps[|steps| - 1];
      EventsOf(s, oracle, init) + if Apply(Run(s, oracle, init), oracle, last).Ok? then Events(last) else []
  }

  lemma {:induction false} RunLog(s: State, oracle: Oracle, steps: seq<Step>)
    ensures Run(s, oracle, steps).log == s.log + EventsOf(s, oracle, steps)
  {
    if steps != [] {
      var init, last := steps[..|steps| - 1], steps[|steps| - 1];
      RunLog(s, oracle, init);
      AttemptLog(Run(s, oracle, init), oracle, last);
    }
  }

  lemma AttemptLog(s: State, oracle: Oracle, step: Step)
    ensures (match Apply(s, oracle, step) case Ok(t) => t.log case Err(_) => s.log)
         == s.log + if Apply(s, oracle, step).Ok? then Events(step) else []
  {
    if Apply(s, oracle, step).Ok? {
      StepLog(s, oracle, step);
    }
  }

  lemma StepLog(s: State, oracle: Oracle, step: Step)
    requires Apply(s, oracle, step).Ok?
    ensures Apply(s, oracle, step).value.log == s.log + Events(step)
  {
    match step
    case Mine(miner, sub, clock, slotHash) =>
      assert Apply(s, oracle, step) == ApplyMine(s, oracle, miner, sub, clock, slotHash);
      MineRecords(s, oracle, miner, sub, clock, slotHash);
    case AdvanceEmptyRound(clock, slotHash) => SkipRecords(s, oracle, clock, slotHash);
    case _ =>
  }

  // ------------------------------------------------------------------ the admin

  /** Only the admin funds the vault, once, with 18.9 million tokens of 10^6 units. */
  ghost predicate Funded(s: State, t: State, clock: Clock) {
    && t.vault == s.vault + 18_900_000_000_000 && t.start == clock
    && t.deposits == s.deposits && t.log == s.log
    && t.config == s.config.(miningOpen := true, currentRoundOpenSlot := clock.slot,
                             currentRoundOpenUnixTs := clock.unixTs, lastRetargetUnixTs := clock.unixTs)
  }

  lemma FundOutcome(s: State, funder: Pubkey, source: nat, clock: Clock)
    ensures var r := ApplyFundVault(s, funder, source, clock);
            && (r.Ok? <==> funder == s.config.admin && !s.config.miningOpen && source >= 18_900_000_000_000)
            && (r.Ok? ==> Funded(s, r.value, clock))
            && (r == Err(NotAdmin) <==> funder != s.config.admin)
            && (r == Err(AlreadyOpen) <==> funder == s.config.admin && s.config.miningOpen)
  {
  }

  /** Only the admin sets the target, and only before renouncing. */
  lemma SetTargetOutcome(s: State, signer: Pubkey, target: Bytes32)
    ensures var r := ApplySetTarget(s, signer, target);
            && (r.Ok? <==> signer == s.config.admin && !s.config.adminRenounced)
            && (r.Ok? ==> r.value == s.(config := s.config.(currentTarget := target),
                                        log := s.log + [TargetSet(target)]))
            && (r == Err(NotAdmin) <==> signer != s.config.admin)
            && (r == Err(AdminRenounced) <==> signer == s.config.admin && s.config.adminRenounced)
  {
  }

  /** Only the admin renounces, once; the key is cleared. */
  lemma RenounceOutcome(s: State, signer: Pubkey)
    ensures var r := ApplyRenounceAdmin(s, signer);
            && (r.Ok? <==> signer == s.config.admin && !s.config.adminRenounced)
            && (r.Ok? ==> r.value == s.(config := s.config.(adminRenounced := true, admin := Fill(0))))
            && (r == Err(NotAdmin) <==> signer != s.config.admin)
            && (r == Err(AdminRenounced) <==> signer == s.config.admin && s.config.adminRenounced)
  {
  }

  /** The account after `initialize`. */
  ghost predicate Started(s: State, oracle: Oracle, admin: Pubkey, target: Bytes32, clock: Clock) {
    var c := s.config;
    && c.genesisSlot == clock.slot && c.genesisUnixTs == clock.unixTs
    && c.currentTarget == target && c.currentChallenge == oracle.genesisChallenge(clock.slot)
    && c.blockHeight == 0 && c.cumulativeMined == 0 && c.emptyRounds == 0 && c.lastWinner == Fill(0)
    && c.currentRoundOpenSlot == clock.slot && c.currentRoundOpenUnixTs == clock.unixTs
    && c.currentEpochReward == 25_000_000 && c.nextHalvingBlock == 378_000
    && c.nextRetargetBlock == 60 && c.lastRetargetUnixTs == clock.unixTs
    && !c.miningOpen && c.admin == admin && !c.adminRenounced
    && s.vault == 0 && s.deposits == 0 && s.log == []
  }

  lemma InitializeOutcome(oracle: Oracle, admin: Pubkey, target: Bytes32, clock: Clock)
    ensures Started(Initialized(oracle, admin, target, clock), oracle, admin, target, clock)
  {
  }
}
