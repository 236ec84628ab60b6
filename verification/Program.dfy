/**
 The on-chain program as a state machine: the config account, the vault balance and the
 history of rounds, changed by atomic steps that either succeed or change nothing.
 */
module Program {
  import opened Arith
  import opened Wrappers
  import opened Target
  import opened Schedule

  newtype i64 = x: int | -0x8000_0000_0000_0000 <= x < 0x8000_0000_0000_0000

  type Pubkey = Bytes32

  const DEFAULT_PUBKEY: Pubkey := Fill(0)

  datatype Clock = Clock(slot: u64, unixTs: i64)

  datatype Error =
    | AdminRenounced | NotAdmin | InvalidEquihash | AboveTarget | RoundStillActive | SupplyExhausted
    | BadSlotHashes | ScheduleOverflow | RewardZeroed | MiningNotOpen | AlreadyOpen | InsufficientFunds

  /** The config account, without the keys that other instructions only compare. */
  datatype Config = Config(
    genesisSlot: u64,
    genesisUnixTs: i64,
    currentTarget: Bytes32,
    blockHeight: u64,
    currentChallenge: Bytes32,
    currentRoundOpenSlot: u64,
    currentRoundOpenUnixTs: i64,
    lastWinner: Pubkey,
    currentEpochReward: u64,
    nextHalvingBlock: u64,
    nextRetargetBlock: u64,
    lastRetargetUnixTs: i64,
    cumulativeMined: u64,
    emptyRounds: u64,
    miningOpen: bool,
    admin: Pubkey,
    adminRenounced: bool)

  datatype Submission = Submission(nonce: seq<u8>, solnIndices: seq<u8>)

  /** Hashing and the Equihash verifier, about which nothing is assumed. */
  datatype Oracle = Oracle(
    genesisChallenge: u64 -> Bytes32,
    nextChallenge: (Bytes32, Pubkey, Bytes32) -> Bytes32,
    isValid: (Bytes32, Pubkey, u64, Submission) -> bool,
    solutionHash: (Bytes32, Pubkey, u64, Submission) -> Bytes32)

  /** What happened, oldest first; steps that failed leave no entry. */
  datatype Event =
    | Mined(winner: Pubkey, clock: Clock, entropy: Bytes32)
    | Skipped(clock: Clock, entropy: Bytes32)
    | TargetSet(target: Bytes32)

  /**
   The config, the tokens in the vault, the clock that round timing started from, the
   tokens that came into the vault from outside the program, and the history.
   */
  datatype State = State(config: Config, vault: nat, start: Clock, deposits: nat, log: seq<Event>)

  datatype Step =
    | FundVault(funder: Pubkey, source: nat, clock: Clock)
    | Mine(miner: Pubkey, submission: Submission, clock: Clock, slotHash: Option<Bytes32>)
    | AdvanceEmptyRound(clock: Clock, slotHash: Option<Bytes32>)
    | SetTarget(signer: Pubkey, target: Bytes32)
    | RenounceAdmin(signer: Pubkey)
    | Deposit(amount: nat)

  // ------------------------------------------------------------------ the steps

  function Initialized(oracle: Oracle, admin: Pubkey, target: Bytes32, clock: Clock): State {
    State(Config(clock.slot, clock.unixTs, target, 0, oracle.genesisChallenge(clock.slot), clock.slot, clock.unixTs,
                 DEFAULT_PUBKEY, INITIAL_BLOCK_REWARD_BASE as u64, HALVING_INTERVAL_BLOCKS as u64,
                 RETARGET_INTERVAL_BLOCKS as u64, clock.unixTs, 0, 0, false, admin, false),
          0, clock, 0, [])
  }

  /** `saturating_sub`, then no less than zero. */
  function Elapsed(now: i64, last: i64): (seconds: u64)
    ensures now >= last && now as int - last as int < 0x8000_0000_0000_0000 ==>
              seconds as int == now as int - last as int
    ensures now < last ==> seconds == 0
    ensures now as int - last as int >= 0x8000_0000_0000_0000 ==> seconds == 0x7FFF_FFFF_FFFF_FFFF
  {
    var d := now as int - last as int;
    if d < 0 then 0 else if d > 0x7FFF_FFFF_FFFF_FFFF then 0x7FFF_FFFF_FFFF_FFFF else d as u64
  }

  /** The one target with the next value. */
  function NextTargetOf(target: Bytes32, seconds: u64): Bytes32 {
    ToBytes(NextValue(Value(target), seconds as nat), 32)
  }

  /** A checked addition in `advance_round` fails. */
  predicate Overflows(c: Config, mined: bool) {
    var height := c.blockHeight as nat + 1;
    || height > U64_MAX as nat
    || (!mined && c.emptyRounds == U64_MAX)
    || (IsRetargetBoundary(height) && height + RETARGET_INTERVAL_BLOCKS > U64_MAX as nat)
    || (IsHalvingBoundary(height) && height + HALVING_INTERVAL_BLOCKS > U64_MAX as nat)
  }

  function Advanced(c: Config, challenge: Bytes32, clock: Clock, winner: Option<Pubkey>): Config
    requires !Overflows(c, winner.Some?)
  {
    var height := c.blockHeight + 1;
    var retarget := IsRetargetBoundary(height as nat);
    var halving := IsHalvingBoundary(height as nat);
    c.(blockHeight := height,
       currentChallenge := challenge,
       currentRoundOpenSlot := clock.slot,
       currentRoundOpenUnixTs := clock.unixTs,
       lastWinner := if winner.Some? then winner.value else c.lastWinner,
       emptyRounds := if winner.Some? then c.emptyRounds else c.emptyRounds + 1,
       currentTarget := if retarget then NextTargetOf(c.currentTarget, Elapsed(clock.unixTs, c.lastRetargetUnixTs))
                        else c.currentTarget,
       lastRetargetUnixTs := if retarget then clock.unixTs else c.lastRetargetUnixTs,
       nextRetargetBlock := if retarget then height + RETARGET_INTERVAL_BLOCKS as u64 else c.nextRetargetBlock,
       currentEpochReward := if halving then c.currentEpochReward / 2 else c.currentEpochReward,
       nextHalvingBlock := if halving then height + HALVING_INTERVAL_BLOCKS as u64 else c.nextHalvingBlock)
  }

  function AdvanceRound(c: Config, oracle: Oracle, clock: Clock, slotHash: Option<Bytes32>, winner: Option<Pubkey>)
    : Result<Config, Error>
  {
    match slotHash
    case None => Err(BadSlotHashes)
    case Some(entropy) =>
      if Overflows(c, winner.Some?) then Err(ScheduleOverflow)
      else
        var winnerKey := if winner.Some? then winner.value else DEFAULT_PUBKEY;
        Ok(Advanced(c, oracle.nextChallenge(c.currentChallenge, winnerKey, entropy), clock, winner))
  }

  /** Funding opens mining and measures round timing from now. */
  function Opened(c: Config, clock: Clock): Config {
    c.(currentRoundOpenSlot := clock.slot,
       currentRoundOpenUnixTs := clock.unixTs,
       lastRetargetUnixTs := clock.unixTs,
       miningOpen := true)
  }

  function Paid(c: Config): Config
    requires c.cumulativeMined as nat + c.currentEpochReward as nat <= U64_MAX as nat
  {
    c.(cumulativeMined := c.cumulativeMined + c.currentEpochReward)
  }

  function ApplyFundVault(s: State, funder: Pubkey, source: nat, clock: Clock): Result<State, Error> {
    if funder != s.config.admin then Err(NotAdmin)
    else if s.config.miningOpen then Err(AlreadyOpen)
    else if source < MINEABLE_BASE then Err(InsufficientFunds)
    else Ok(State(Opened(s.config, clock), s.vault + MINEABLE_BASE, clock, s.deposits, s.log))
  }

  /** The checks of a mine step, in order. */
  function MineRefusal(c: Config, vault: nat, oracle: Oracle, miner: Pubkey, sub: Submission): (refusal: Option<Error>)
    ensures refusal.None? ==> c.cumulativeMined as nat + c.currentEpochReward as nat <= U64_MAX as nat
    ensures refusal.None? ==> c.currentEpochReward as nat <= vault
  {
    var total := c.cumulativeMined as nat + c.currentEpochReward as nat;
    if !c.miningOpen then Some(MiningNotOpen)
    else if !oracle.isValid(c.currentChallenge, miner, c.blockHeight, sub) then Some(InvalidEquihash)
    else if Value(oracle.solutionHash(c.currentChallenge, miner, c.blockHeight, sub)) >= Value(c.currentTarget)
    then Some(AboveTarget)
    else if c.currentEpochReward == 0 then Some(RewardZeroed)
    else if total > U64_MAX as nat then Some(ScheduleOverflow)
    else if total > MINEABLE_BASE then Some(SupplyExhausted)
    else if vault < c.currentEpochReward as nat then Some(InsufficientFunds)
    else None
  }

  function ApplyMine(s: State, oracle: Oracle, miner: Pubkey, sub: Submission, clock: Clock, slotHash: Option<Bytes32>)
    : Result<State, Error>
  {
    var c := s.config;
    match MineRefusal(c, s.vault, oracle, miner, sub)
    case Some(e) => Err(e)
    case None =>
      match AdvanceRound(Paid(c), oracle, clock, slotHash, Some(miner))
      case Err(e) => Err(e)
      case Ok(next) =>
        Ok(State(next, s.vault - c.currentEpochReward as nat, s.start, s.deposits,
                 s.log + [Mined(miner, clock, slotHash.value)]))
  }

  function ApplyAdvanceEmptyRound(s: State, oracle: Oracle, clock: Clock, slotHash: Option<Bytes32>)
    : Result<State, Error>
  {
    if !s.config.miningOpen then Err(MiningNotOpen)
    else if clock.slot < s.config.currentRoundOpenSlot then Err(RoundStillActive)
    else if ((clock.slot - s.config.currentRoundOpenSlot) as nat) < ROUND_TIMEOUT_SLOTS then Err(RoundStillActive)
    else
      match AdvanceRound(s.config, oracle, clock, slotHash, None)
      case Err(e) => Err(e)
      case Ok(next) => Ok(State(next, s.vault, s.start, s.deposits, s.log + [Skipped(clock, slotHash.value)]))
  }

  function ApplySetTarget(s: State, signer: Pubkey, target: Bytes32): Result<State, Error> {
    if signer != s.config.admin then Err(NotAdmin)
    else if s.config.adminRenounced then Err(AdminRenounced)
    else Ok(State(s.config.(currentTarget := target), s.vault, s.start, s.deposits, s.log + [TargetSet(target)]))
  }

  function Renounced(c: Config): Config {
    c.(adminRenounced := true, admin := DEFAULT_PUBKEY)
  }

  function ApplyRenounceAdmin(s: State, signer: Pubkey): Result<State, Error> {
    if signer != s.config.admin then Err(NotAdmin)
    else if s.config.adminRenounced then Err(AdminRenounced)
    else Ok(State(Renounced(s.config), s.vault, s.start, s.deposits, s.log))
  }

  function Apply(s: State, oracle: Oracle, step: Step): Result<State, Error> {
    match step
    case FundVault(funder, source, clock) => ApplyFundVault(s, funder, source, clock)
    case Mine(miner, sub, clock, slotHash) => ApplyMine(s, oracle, miner, sub, clock, slotHash)
    case AdvanceEmptyRound(clock, slotHash) => ApplyAdvanceEmptyRound(s, oracle, clock, slotHash)
    case SetTarget(signer, target) => ApplySetTarget(s, signer, target)
    case RenounceAdmin(signer) => ApplyRenounceAdmin(s, signer)
    case Deposit(amount) => Ok(State(s.config, s.vault + amount, s.start, s.deposits + amount, s.log))
  }

  /** The state after any number of attempts; a failing one changes nothing. */
  function Run(s: State, oracle: Oracle, steps: seq<Step>): State {
    if steps == [] then s else
      var before := Run(s, oracle, steps[..|steps| - 1]);
      match Apply(before, oracle, steps[|steps| - 1])
      case Ok(after) => after
      case Err(_) => before
  }

  // ------------------------------------------------------------------ histories

  predicate IsRound(e: Event) {
    !e.TargetSet?
  }

  /** Rounds closed, mined or not. */
  ghost function Height(log: seq<Event>): nat {
    if log == [] then 0 else Height(log[..|log| - 1]) + if IsRound(log[|log| - 1]) then 1 else 0
  }

  ghost function EmptyCount(log: seq<Event>): nat {
    if log == [] then 0 else EmptyCount(log[..|log| - 1]) + if log[|log| - 1].Skipped? then 1 else 0
  }

  ghost function MinedCount(log: seq<Event>): nat {
    if log == [] then 0 else MinedCount(log[..|log| - 1]) + if log[|log| - 1].Mined? then 1 else 0
  }

  /** Rewards of the heights that were mined. */
  ghost function MinedSum(log: seq<Event>): nat {
    if log == [] then 0 else
      MinedSum(log[..|log| - 1]) + if log[|log| - 1].Mined? then RewardAtHeight(Height(log[..|log| - 1])) else 0
  }

  /** Rewards of the heights that were skipped. */
  ghost function SkippedSum(log: seq<Event>): nat {
    if log == [] then 0 else
      SkippedSum(log[..|log| - 1]) + if log[|log| - 1].Skipped? then RewardAtHeight(Height(log[..|log| - 1])) else 0
  }

  /** The clock of the last round, or of the start. */
  ghost function LastRound(log: seq<Event>, start: Clock): Clock {
    if log == [] then start
    else if IsRound(log[|log| - 1]) then log[|log| - 1].clock
    else LastRound(log[..|log| - 1], start)
  }

  /** The last event closed a round at a retarget boundary. */
  ghost predicate Retargets(log: seq<Event>) {
    log != [] && IsRound(log[|log| - 1]) && IsRetargetBoundary(Height(log))
  }

  ghost function LastRetarget(log: seq<Event>, start: Clock): i64 {
    if log == [] then start.unixTs
    else if Retargets(log) then log[|log| - 1].clock.unixTs
    else LastRetarget(log[..|log| - 1], start)
  }

  /** The elapsed seconds of every retarget, oldest first. */
  ghost function Windows(log: seq<Event>, start: Clock): seq<nat> {
    if log == [] then [] else
      var before := log[..|log| - 1];
      Windows(before, start)
      + if Retargets(log) then [Elapsed(log[|log| - 1].clock.unixTs, LastRetarget(before, start)) as nat] else []
  }

  /** The value of the target: what the admin set last, retargeted since. */
  ghost function TargetAfter(log: seq<Event>, initial: nat, start: Clock): nat {
    if log == [] then initial else
      var before := log[..|log| - 1];
      if log[|log| - 1].TargetSet? then Value(log[|log| - 1].target)
      else if Retargets(log) then
        NextValue(TargetAfter(before, initial, start),
                  Elapsed(log[|log| - 1].clock.unixTs, LastRetarget(before, start)) as nat)
      else TargetAfter(before, initial, start)
  }

  ghost function LastWinner(log: seq<Event>): Pubkey {
    if log == [] then DEFAULT_PUBKEY
    else if log[|log| - 1].Mined? then log[|log| - 1].winner
    else LastWinner(log[..|log| - 1])
  }

  /** The challenge chain. */
  ghost function ChallengeAfter(log: seq<Event>, oracle: Oracle, genesis: Bytes32): Bytes32 {
    if log == [] then genesis else
      var before := ChallengeAfter(log[..|log| - 1], oracle, genesis);
      match log[|log| - 1]
      case Mined(winner, _, entropy) => oracle.nextChallenge(before, winner, entropy)
      case Skipped(_, entropy) => oracle.nextChallenge(before, DEFAULT_PUBKEY, entropy)
      case TargetSet(_) => before
  }

  /** Every skipped round had been open for the timeout. */
  ghost predicate TimedOut(log: seq<Event>, start: Clock) {
    log == [] ||
    (var before := log[..|log| - 1];
     TimedOut(before, start)
     && (log[|log| - 1].Skipped? ==>
           LastRound(before, start).slot as nat + ROUND_TIMEOUT_SLOTS <= log[|log| - 1].clock.slot as nat))
  }

  ghost function NextMultipleAbove(height: nat, interval: nat): nat
    requires interval > 0
  {
    (height / interval + 1) * interval
  }

  // ------------------------------------------------------------------ the invariant

  /** Every config field is what the history says it should be. */
  ghost predicate Tracks(c: Config, oracle: Oracle, initial: Config, log: seq<Event>, start: Clock) {
    && c.genesisSlot == initial.genesisSlot && c.genesisUnixTs == initial.genesisUnixTs
    && c.blockHeight as nat == Height(log)
    && c.emptyRounds as nat == EmptyCount(log)
    && c.currentEpochReward as nat == RewardAtHeight(Height(log))
    && c.nextHalvingBlock as nat == NextMultipleAbove(Height(log), HALVING_INTERVAL_BLOCKS)
    && c.nextRetargetBlock as nat == NextMultipleAbove(Height(log), RETARGET_INTERVAL_BLOCKS)
    && Value(c.currentTarget) == TargetAfter(log, Value(initial.currentTarget), start)
    && c.currentRoundOpenSlot == LastRound(log, start).slot
    && c.currentRoundOpenUnixTs == LastRound(log, start).unixTs
    && c.lastRetargetUnixTs == LastRetarget(log, start)
    && c.lastWinner == LastWinner(log)
    && c.currentChallenge == ChallengeAfter(log, oracle, initial.currentChallenge)
    && (c.adminRenounced ==> c.admin == DEFAULT_PUBKEY)
    && (!c.adminRenounced ==> c.admin == initial.admin)
  }

  ghost predicate Inv(s: State, oracle: Oracle, initial: Config) {
    && Tracks(s.config, oracle, initial, s.log, s.start)
    && s.config.cumulativeMined as nat == MinedSum(s.log)
    && TimedOut(s.log, s.start)
    && (!s.config.miningOpen ==> Height(s.log) == 0 && s.vault == s.deposits)
    && (s.config.miningOpen ==> s.vault + MinedSum(s.log) == MINEABLE_BASE + s.deposits)
  }

  // ------------------------------------------------------------------ sums over a history

  lemma {:induction false} RoundsAddUp(log: seq<Event>)
    ensures Height(log) == MinedCount(log) + EmptyCount(log)
    ensures MinedSum(log) + SkippedSum(log) == ScheduleSum(0, Height(log))
  {
    if log != [] {
      RoundsAddUp(log[..|log| - 1]);
    }
  }

  lemma {:induction false} ScheduleGrows(from: nat, a: nat, b: nat)
    requires a <= b
    ensures ScheduleSum(from, a) <= ScheduleSum(from, b)
  {
    if a < b {
      ScheduleGrows(from, a, b - 1);
    }
  }

  lemma ScheduleAtMost(height: nat)
    ensures ScheduleSum(0, height) <= SCHEDULE_TOTAL
  {
    var far := if height < LAST_PAID_HEIGHT then LAST_PAID_HEIGHT else height;
    ScheduleGrows(0, height, far);
    WholeSchedule(far);
  }

  /** No history pays out more than the schedule, which is less than the vault was given. */
  lemma SupplyBound(log: seq<Event>)
    ensures MinedSum(log) <= SCHEDULE_TOTAL < MINEABLE_BASE
    ensures MinedSum(log) + RewardAtHeight(Height(log)) <= SCHEDULE_TOTAL
  {
    RoundsAddUp(log);
    ScheduleAtMost(Height(log) + 1);
    VaultCoversSchedule();
  }

  // ------------------------------------------------------------------ the invariant is kept

  /** The last halving boundary a 64-bit height can be followed by; closing the round before it fails. */
  const LAST_BOUNDARY: nat := U64_MAX as nat / HALVING_INTERVAL_BLOCKS * HALVING_INTERVAL_BLOCKS

  lemma NextMultipleStep(height: nat, interval: nat)
    requires interval > 0
    ensures NextMultipleAbove(height + 1, interval)
         == if (height + 1) % interval == 0 then height + 1 + interval else NextMultipleAbove(height, interval)
    ensures height < NextMultipleAbove(height, interval) <= height + interval
    ensures (height + 1) % interval == 0 ==> NextMultipleAbove(height, interval) == height + 1
  {
    var q, r := height / interval, height % interval;
    assert height == q * interval + r;
    Distribute(q, 1, interval);
    Distribute(q + 1, 1, interval);
    if r == interval - 1 {
      DivUnique(height + 1, interval, q + 1, 0);
    } else {
      DivUnique(height + 1, interval, q, r + 1);
    }
  }

  lemma BoundaryOverflow(height: nat, nextHalving: nat, nextRetarget: nat)
    requires nextHalving == NextMultipleAbove(height, HALVING_INTERVAL_BLOCKS) && nextHalving <= U64_MAX as nat
    requires nextRetarget == NextMultipleAbove(height, RETARGET_INTERVAL_BLOCKS)
    ensures height + 1 <= U64_MAX as nat
    ensures (IsRetargetBoundary(height + 1) && height + 1 + RETARGET_INTERVAL_BLOCKS > U64_MAX as nat)
            || (IsHalvingBoundary(height + 1) && height + 1 + HALVING_INTERVAL_BLOCKS > U64_MAX as nat)
       <==> height + 1 == LAST_BOUNDARY
  {
    NextMultipleStep(height, HALVING_INTERVAL_BLOCKS);
    NextMultipleStep(height, RETARGET_INTERVAL_BLOCKS);
  }

  lemma {:induction false} EmptyAtMostHeight(log: seq<Event>)
    ensures EmptyCount(log) <= Height(log)
  {
    RoundsAddUp(log);
  }

  /** A round can close unless it is the one before the last boundary. */
  lemma OverflowsWhen(c: Config, oracle: Oracle, initial: Config, log: seq<Event>, start: Clock, mined: bool)
    requires Tracks(c, oracle, initial, log, start)
    ensures Overflows(c, mined) <==> c.blockHeight as nat + 1 == LAST_BOUNDARY
  {
    BoundaryOverflow(Height(log), c.nextHalvingBlock as nat, c.nextRetargetBlock as nat);
    EmptyAtMostHeight(log);
  }

  lemma NextTargetBytes(target: Bytes32, seconds: u64)
    ensures Value(NextTargetOf(target, seconds)) == NextValue(Value(target), seconds as nat)
  {
    TargetBound(target);
    NextWithinTwo(Value(target), seconds as nat);
    PowerSplit();
    ValueToBytes(NextValue(Value(target), seconds as nat), 32);
  }

  /** Closing a round keeps every field in step with the history. */
  lemma RoundTracks(c: Config, oracle: Oracle, initial: Config, log: seq<Event>, start: Clock, event: Event)
    requires Tracks(c, oracle, initial, log, start) && IsRound(event)
    requires !Overflows(c, event.Mined?)
    ensures var winner := if event.Mined? then Some(event.winner) else None;
            Tracks(Advanced(c, ChallengeAfter(log + [event], oracle, initial.currentChallenge), event.clock, winner),
                   oracle, initial, log + [event], start)
  {
    var after := log + [event];
    assert after[..|after| - 1] == log;
    NextMultipleStep(Height(log), HALVING_INTERVAL_BLOCKS);
    NextMultipleStep(Height(log), RETARGET_INTERVAL_BLOCKS);
    RewardStep(Height(log));
    NextTargetBytes(c.currentTarget, Elapsed(event.clock.unixTs, c.lastRetargetUnixTs));
  }

  lemma TargetTracks(c: Config, oracle: Oracle, initial: Config, log: seq<Event>, start: Clock, target: Bytes32)
    requires Tracks(c, oracle, initial, log, start)
    ensures Tracks(c.(currentTarget := target), oracle, initial, log + [TargetSet(target)], start)
  {
    var after := log + [TargetSet(target)];
    assert after[..|after| - 1] == log;
  }

  /** Before any round the clock that timing starts from can be moved. */
  lemma {:induction false} StartMoves(log: seq<Event>, initial: nat, start: Clock, start': Clock)
    requires Height(log) == 0
    ensures TargetAfter(log, initial, start') == TargetAfter(log, initial, start)
    ensures LastRound(log, start') == start' && LastRetarget(log, start') == start'.unixTs
    ensures TimedOut(log, start')
  {
    if log != [] {
      StartMoves(log[..|log| - 1], initial, start, start');
    }
  }

  lemma MineKeeps(s: State, oracle: Oracle, initial: Config, miner: Pubkey, sub: Submission, clock: Clock,
      slotHash: Option<Bytes32>)
    requires Inv(s, oracle, initial) && ApplyMine(s, oracle, miner, sub, clock, slotHash).Ok?
    ensures Inv(ApplyMine(s, oracle, miner, sub, clock, slotHash).value, oracle, initial)
  {
    var event := Mined(miner, clock, slotHash.value);
    var after := s.log + [event];
    assert after[..|after| - 1] == s.log;
    assert Tracks(Paid(s.config), oracle, initial, s.log, s.start);
    RoundTracks(Paid(s.config), oracle, initial, s.log, s.start, event);
  }

  lemma SkipKeeps(s: State, oracle: Oracle, initial: Config, clock: Clock, slotHash: Option<Bytes32>)
    requires Inv(s, oracle, initial) && ApplyAdvanceEmptyRound(s, oracle, clock, slotHash).Ok?
    ensures Inv(ApplyAdvanceEmptyRound(s, oracle, clock, slotHash).value, oracle, initial)
  {
    var event := Skipped(clock, slotHash.value);
    var after := s.log + [event];
    assert after[..|after| - 1] == s.log;
    RoundTracks(s.config, oracle, initial, s.log, s.start, event);
  }

  lemma FundKeeps(s: State, oracle: Oracle, initial: Config, funder: Pubkey, source: nat, clock: Clock)
    requires Inv(s, oracle, initial) && ApplyFundVault(s, funder, source, clock).Ok?
    ensures Inv(ApplyFundVault(s, funder, source, clock).value, oracle, initial)
  {
    StartMoves(s.log, Value(initial.currentTarget), s.start, clock);
    RoundsAddUp(s.log);
  }

  lemma SetTargetKeeps(s: State, oracle: Oracle, initial: Config, signer: Pubkey, target: Bytes32)
    requires Inv(s, oracle, initial) && ApplySetTarget(s, signer, target).Ok?
    ensures Inv(ApplySetTarget(s, signer, target).value, oracle, initial)
  {
    var after := s.log + [TargetSet(target)];
    assert after[..|after| - 1] == s.log;
    TargetTracks(s.config, oracle, initial, s.log, s.start, target);
  }

  /** Every successful step keeps the invariant. */
  lemma StepKeepsInv(s: State, oracle: Oracle, initial: Config, step: Step)
    requires Inv(s, oracle, initial) && Apply(s, oracle, step).Ok?
    ensures Inv(Apply(s, oracle, step).value, oracle, initial)
  {
    match step
    case FundVault(funder, source, clock) => FundKeeps(s, oracle, initial, funder, source, clock);
    case Mine(miner, sub, clock, slotHash) => MineKeeps(s, oracle, initial, miner, sub, clock, slotHash);
    case AdvanceEmptyRound(clock, slotHash) => SkipKeeps(s, oracle, initial, clock, slotHash);
    case SetTarget(signer, target) => SetTargetKeeps(s, oracle, initial, signer, target);
    case RenounceAdmin(signer) =>
    case Deposit(amount) =>
  }

  lemma InitialInv(oracle: Oracle, admin: Pubkey, target: Bytes32, clock: Clock)
    ensures var s := Initialized(oracle, admin, target, clock); Inv(s, oracle, s.config)
  {
    assert ShiftRight(INITIAL_BLOCK_REWARD_BASE, 0) == INITIAL_BLOCK_REWARD_BASE;
    RewardIsEpochReward(0);
  }

  /** In every reachable state every field is what the history says it should be. */
  lemma {:induction false} ReachableInv(oracle: Oracle, admin: Pubkey, target: Bytes32, clock: Clock, steps: seq<Step>)
    ensures var s := Initialized(oracle, admin, target, clock); Inv(Run(s, oracle, steps), oracle, s.config)
  {
    var s := Initialized(oracle, admin, target, clock);
    if steps == [] {
      InitialInv(oracle, admin, target, clock);
    } else {
      ReachableInv(oracle, admin, target, clock, steps[..|steps| - 1]);
      var before := Run(s, oracle, steps[..|steps| - 1]);
      if Apply(before, oracle, steps[|steps| - 1]).Ok? {
        StepKeepsInv(before, oracle, s.config, steps[|steps| - 1]);
      }
    }
  }
}
