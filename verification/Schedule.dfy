/**
 The emission and difficulty schedule: rewards by height, boundaries, the retarget
 formula, and what they add up to over whole runs.
 */
module Schedule {
  import opened Arith
  import opened Target

  const MINEABLE_BASE: nat := 18_900_000 * 1_000_000
  const INITIAL_BLOCK_REWARD_BASE: nat := 25 * 1_000_000
  const HALVING_INTERVAL_BLOCKS: nat := 378_000
  const RETARGET_INTERVAL_BLOCKS: nat := 60
  const RETARGET_TARGET_SECONDS: u64 := 3600
  const RETARGET_MIN_NUM: u64 := 1
  const RETARGET_MIN_DEN: u64 := 2
  const RETARGET_MAX_NUM: u64 := 2
  const RETARGET_MAX_DEN: u64 := 1
  const ROUND_TIMEOUT_SLOTS: nat := 150
  const U64_MAX: u64 := 0xFFFF_FFFF_FFFF_FFFF

  // ------------------------------------------------------------------ rewards

  function RewardAtHeight(height: nat): nat {
    var halvings := height / HALVING_INTERVAL_BLOCKS;
    if halvings >= 64 then 0 else ShiftRight(INITIAL_BLOCK_REWARD_BASE, halvings)
  }

  predicate IsHalvingBoundary(height: nat) {
    height > 0 && height % HALVING_INTERVAL_BLOCKS == 0
  }

  predicate IsRetargetBoundary(height: nat) {
    height > 0 && height % RETARGET_INTERVAL_BLOCKS == 0
  }

  /** The first 25 epochs pay, each later one pays nothing. */
  const LAST_EPOCH: nat := 25
  const LAST_PAID_HEIGHT: nat := LAST_EPOCH * HALVING_INTERVAL_BLOCKS

  /** What the whole schedule pays: 378000 * (2 * 25000000 - 12). */
  const SCHEDULE_TOTAL: nat := HALVING_INTERVAL_BLOCKS * (2 * INITIAL_BLOCK_REWARD_BASE - 12)

  /** What can never be paid out. */
  const DUST: nat := 4_536_000

  lemma {:induction false} ShiftOnce(x: nat, b: nat)
    ensures ShiftRight(x, b + 1) == ShiftRight(x, b) / 2
  {
    if b != 0 {
      ShiftOnce(x / 2, b - 1);
    }
  }

  lemma {:induction false} ShiftedOut(x: nat, b: nat)
    requires x < Pow2(b)
    ensures ShiftRight(x, b) == 0
  {
    if b != 0 {
      ShiftedOut(x / 2, b - 1);
    }
  }

  lemma {:induction false} ShiftMonotone(x: nat, a: nat, b: nat)
    requires a <= b
    ensures ShiftRight(x, b) <= ShiftRight(x, a)
  {
    if a < b {
      ShiftMonotone(x, a, b - 1);
      ShiftOnce(x, b - 1);
    }
  }

  /** The reward of an epoch, without the cut-off at 64 halvings. */
  ghost function EpochReward(epoch: nat): nat {
    ShiftRight(INITIAL_BLOCK_REWARD_BASE, epoch)
  }

  lemma RewardSize()
    ensures Pow2(24) <= INITIAL_BLOCK_REWARD_BASE < Pow2(25)
  {
    assert Pow2(6) == 64 by {
      assert Pow2(3) == 8;
    }
    Pow2Sum(6, 6);
    Pow2Sum(12, 12);
  }

  lemma EpochsEnd(epoch: nat)
    ensures EpochReward(epoch) > 0 <==> epoch < LAST_EPOCH
  {
    RewardSize();
    if epoch < LAST_EPOCH {
      ShiftMonotone(INITIAL_BLOCK_REWARD_BASE, epoch, 24);
      DivMonotone(Pow2(24), INITIAL_BLOCK_REWARD_BASE, Pow2(24));
    } else {
      ShiftedOut(INITIAL_BLOCK_REWARD_BASE, 25);
      ShiftMonotone(INITIAL_BLOCK_REWARD_BASE, 25, epoch);
    }
  }

  lemma RewardIsEpochReward(height: nat)
    ensures RewardAtHeight(height) == EpochReward(height / HALVING_INTERVAL_BLOCKS)
  {
    EpochsEnd(height / HALVING_INTERVAL_BLOCKS);
  }

  /** Rewards are paid below height 25 * 378000 and nowhere else. */
  lemma RewardPaid(height: nat)
    ensures RewardAtHeight(height) > 0 <==> height < 9_450_000
  {
    RewardIsEpochReward(height);
    EpochsEnd(height / HALVING_INTERVAL_BLOCKS);
  }

  /** At every height, 25 tokens of 10^6 units, halved once for every 378000 blocks below. */
  lemma RewardIs(height: nat)
    ensures RewardAtHeight(height) == 25_000_000 / Pow2(height / 378_000)
  {
    RewardIsEpochReward(height);
  }

  /** Halving at boundaries keeps an incrementally updated reward equal to the formula. */
  lemma RewardStep(height: nat)
    ensures RewardAtHeight(height + 1)
         == if IsHalvingBoundary(height + 1) then RewardAtHeight(height) / 2 else RewardAtHeight(height)
  {
    RewardIsEpochReward(height);
    RewardIsEpochReward(height + 1);
    if IsHalvingBoundary(height + 1) {
      assert (height + 1) / HALVING_INTERVAL_BLOCKS == height / HALVING_INTERVAL_BLOCKS + 1;
      ShiftOnce(INITIAL_BLOCK_REWARD_BASE, height / HALVING_INTERVAL_BLOCKS);
    } else {
      assert (height + 1) / HALVING_INTERVAL_BLOCKS == height / HALVING_INTERVAL_BLOCKS;
    }
  }

  // ------------------------------------------------------------------ the whole schedule

  /** All rewards from `from` up to `to`, whoever gets them. */
  ghost function ScheduleSum(from: nat, to: nat): nat {
    if to <= from then 0 else ScheduleSum(from, to - 1) + RewardAtHeight(to - 1)
  }

  lemma {:induction false} ScheduleSplit(from: nat, mid: nat, to: nat)
    requires from <= mid <= to
    ensures ScheduleSum(from, to) == ScheduleSum(from, mid) + ScheduleSum(mid, to)
  {
    if mid < to {
      ScheduleSplit(from, mid, to - 1);
    }
  }

  /** `x + x/2 + x/4 + ...`, `epochs` terms. */
  ghost function HalvingSum(x: nat, epochs: nat): nat {
    if epochs == 0 then 0 else x + HalvingSum(x / 2, epochs - 1)
  }

  lemma {:induction false} HalvingSumLast(x: nat, epochs: nat)
    ensures HalvingSum(x, epochs + 1) == HalvingSum(x, epochs) + ShiftRight(x, epochs)
  {
    if epochs != 0 {
      HalvingSumLast(x / 2, epochs - 1);
    }
  }

  /** How many bits of `x` are set. */
  ghost function Ones(x: nat): nat {
    if x == 0 then 0 else x % 2 + Ones(x / 2)
  }

  /** Halving until nothing is left adds up to twice the number less its set bits. */
  lemma {:induction false} HalvingSumTotal(x: nat, epochs: nat)
    requires x < Pow2(epochs)
    ensures HalvingSum(x, epochs) + Ones(x) == 2 * x
  {
    if epochs != 0 {
      HalvingSumTotal(x / 2, epochs - 1);
    }
  }

  lemma OnesOfBit(x: nat, bit: nat, y: nat)
    requires bit < 2 && y == 2 * x + bit
    ensures Ones(y) == Ones(x) + bit
  {
    assert y / 2 == x && y % 2 == bit;
  }

  /** Appending three binary digits. */
  lemma OnesOfDigits(x: nat, b2: nat, b1: nat, b0: nat, y: nat)
    requires b2 < 2 && b1 < 2 && b0 < 2 && y == 8 * x + 4 * b2 + 2 * b1 + b0
    ensures Ones(y) == Ones(x) + b2 + b1 + b0
  {
    var y2 := 2 * x + b2;
    var y1 := 2 * y2 + b1;
    OnesOfBit(x, b2, y2);
    OnesOfBit(y2, b1, y1);
    OnesOfBit(y1, b0, y);
  }

  /** The initial reward, three binary digits at a time. */
  lemma RewardOnes()
    ensures Ones(INITIAL_BLOCK_REWARD_BASE) == 12
  {
    OnesOfDigits(0, 0, 0, 1, 1);
    OnesOfDigits(1, 0, 1, 1, 11);
    OnesOfDigits(11, 1, 1, 1, 95);
    OnesOfDigits(95, 0, 1, 0, 762);
    OnesOfDigits(762, 1, 1, 1, 6103);
    OnesOfDigits(6103, 1, 0, 0, 48828);
    OnesOfDigits(48828, 0, 0, 1, 390625);
    OnesOfDigits(390625, 0, 0, 0, 3125000);
    OnesOfDigits(3125000, 0, 0, 0, 25000000);
  }

  lemma {:induction false} WithinEpoch(epoch: nat, j: nat)
    requires j <= HALVING_INTERVAL_BLOCKS
    ensures ScheduleSum(epoch * HALVING_INTERVAL_BLOCKS, epoch * HALVING_INTERVAL_BLOCKS + j) == j * EpochReward(epoch)
  {
    if j != 0 {
      WithinEpoch(epoch, j - 1);
      var height := epoch * HALVING_INTERVAL_BLOCKS + (j - 1);
      RewardIsEpochReward(height);
      assert height / HALVING_INTERVAL_BLOCKS == epoch;
      Distribute(j - 1, 1, EpochReward(epoch));
    }
  }

  lemma {:induction false} WholeEpochs(epochs: nat)
    ensures ScheduleSum(0, epochs * HALVING_INTERVAL_BLOCKS)
         == HALVING_INTERVAL_BLOCKS * HalvingSum(INITIAL_BLOCK_REWARD_BASE, epochs)
  {
    if epochs != 0 {
      WholeEpochs(epochs - 1);
      WithinEpoch(epochs - 1, HALVING_INTERVAL_BLOCKS);
      ScheduleSplit(0, (epochs - 1) * HALVING_INTERVAL_BLOCKS, epochs * HALVING_INTERVAL_BLOCKS);
      HalvingSumLast(INITIAL_BLOCK_REWARD_BASE, epochs - 1);
    }
  }

  lemma {:induction false} NothingAfter(height: nat)
    requires height >= LAST_PAID_HEIGHT
    ensures ScheduleSum(LAST_PAID_HEIGHT, height) == 0
  {
    if height > LAST_PAID_HEIGHT {
      NothingAfter(height - 1);
      RewardPaid(height - 1);
    }
  }

  /** All rewards that will ever be scheduled add up to `SCHEDULE_TOTAL`. */
  lemma WholeSchedule(height: nat)
    requires height >= LAST_PAID_HEIGHT
    ensures ScheduleSum(0, height) == SCHEDULE_TOTAL == 18_899_995_464_000
  {
    WholeEpochs(LAST_EPOCH);
    RewardSize();
    RewardOnes();
    HalvingSumTotal(INITIAL_BLOCK_REWARD_BASE, LAST_EPOCH);
    ScheduleSplit(0, LAST_PAID_HEIGHT, height);
    NothingAfter(height);
  }

  /** The vault holds the schedule and the dust. */
  lemma VaultCoversSchedule()
    ensures SCHEDULE_TOTAL + DUST == MINEABLE_BASE
  {
  }

  // ------------------------------------------------------------------ retargeting

  function SaturatingMul(x: u64, y: u64): (z: u64)
    ensures z as nat == if x as nat * y as nat <= U64_MAX as nat then x as nat * y as nat else U64_MAX as nat
  {
    var product := x as nat * y as nat;
    if product <= U64_MAX as nat then product as u64 else U64_MAX
  }

  function Clamp(x: nat, low: nat, high: nat): nat {
    if x < low then low else if x > high then high else x
  }

  /** The next target: the elapsed time clamped to half and twice the plan, as a fraction of it. */
  function NextValue(v: nat, actualSeconds: nat): nat {
    Scaled(v, Clamp(actualSeconds, 1800, 7200), 3600)
  }

  /** The cross-multiplied tests and the saturating products compute the clamped formula. */
  method NextTarget(oldTarget: Bytes32, actualSeconds: u64) returns (target: Bytes32)
    ensures Value(target) == NextValue(Value(oldTarget), actualSeconds as nat)
  {
    HalfAndDouble(Value(oldTarget));
    var expected := RETARGET_TARGET_SECONDS;
    if actualSeconds == 0 {
      target := ScaleTarget(oldTarget, RETARGET_MIN_NUM, RETARGET_MIN_DEN);
      return;
    }
    var actualXMinDen := SaturatingMul(actualSeconds, RETARGET_MIN_DEN);
    var expectedXMinNum := SaturatingMul(expected, RETARGET_MIN_NUM);
    if actualXMinDen < expectedXMinNum {
      target := ScaleTarget(oldTarget, RETARGET_MIN_NUM, RETARGET_MIN_DEN);
      return;
    }
    var actualXMaxDen := SaturatingMul(actualSeconds, RETARGET_MAX_DEN);
    var expectedXMaxNum := SaturatingMul(expected, RETARGET_MAX_NUM);
    if actualXMaxDen > expectedXMaxNum {
      target := ScaleTarget(oldTarget, RETARGET_MAX_NUM, RETARGET_MAX_DEN);
      return;
    }
    target := ScaleTarget(oldTarget, actualSeconds, expected);
  }

  /** Clamping the time gives the same results as scaling by 1/2 and 2/1. */
  lemma HalfAndDouble(v: nat)
    ensures Scaled(v, 1800, 3600) == Scaled(v, 1, 2)
    ensures Scaled(v, 7200, 3600) == Scaled(v, 2, 1)
  {
  }

  lemma DivMonotone(x: nat, y: nat, d: nat)
    requires x <= y && d > 0
    ensures x / d <= y / d
  {
    var p, q := x / d, y / d;
    assert x == p * d + x % d && y == q * d + y % d;
    if q < p {
      NextMultiple(q, p, d);
    }
  }

  /** An easier old target or a slower window never makes the next target harder. */
  lemma NextMonotone(v: nat, w: nat, s: nat, t: nat)
    requires v <= w && s <= t
    ensures NextValue(v, s) <= NextValue(w, t)
  {
    var cs, ct := Clamp(s, 1800, 7200), Clamp(t, 1800, 7200);
    MulMonotone(v, w, cs);
    MulMonotone(cs, ct, w);
    assert v * cs <= w * cs == cs * w <= ct * w == w * ct;
    DivMonotone(v * cs, w * ct, 3600);
  }

  /** One retarget moves the target by at most a factor of two either way. */
  lemma NextWithinTwo(v: nat, s: nat)
    requires v < B * B * B * B
    ensures v / 2 <= NextValue(v, s) <= 2 * v
    ensures NextValue(v, s) < B * B * B * B
  {
    HalfAndDouble(v);
    NextMonotone(v, v, 0, s);
    NextMonotone(v, v, s, 7200 + s);
  }

  /** The target after retargets with the given elapsed times. */
  ghost function Retargeted(v: nat, windows: seq<nat>): nat {
    if windows == [] then v else NextValue(Retargeted(v, windows[..|windows| - 1]), windows[|windows| - 1])
  }

  /** Over `m` retargets the target stays within a factor of `2^m` of where it started. */
  lemma {:induction false} RetargetRun(v: nat, windows: seq<nat>)
    requires v < B * B * B * B
    ensures v / Pow2(|windows|) <= Retargeted(v, windows) <= v * Pow2(|windows|)
    ensures Retargeted(v, windows) < B * B * B * B
  {
    if windows != [] {
      var m := |windows| - 1;
      RetargetRun(v, windows[..m]);
      NextWithinTwo(Retargeted(v, windows[..m]), windows[m]);
      RunBounds(v, Pow2(m), Retargeted(v, windows[..m]), Retargeted(v, windows));
    }
  }

  lemma RunBounds(v: nat, p: nat, before: nat, after: nat)
    requires p > 0 && v / p <= before <= v * p
    requires before / 2 <= after <= 2 * before
    ensures v / (2 * p) <= after <= v * (2 * p)
  {
    DivMonotone(v / p, before, 2);
    DivTwice(v, p);
    assert 2 * (v * p) == v * (2 * p);
  }

  lemma DivTwice(v: nat, p: nat)
    requires p > 0
    ensures (v / p) / 2 == v / (2 * p)
  {
    var q, r := v / p, v % p;
    assert v == q * p + r;
    var h, s := q / 2, q % 2;
    assert q * p == h * (2 * p) + s * p by {
      Distribute(2 * h, s, p);
    }
    assert s * p <= p by {
      if s == 0 {
        assert s * p == 0;
      }
    }
    DivUnique(v, 2 * p, h, s * p + r);
  }

  /** A zero target stays zero. */
  lemma {:induction false} ZeroStays(windows: seq<nat>)
    ensures Retargeted(0, windows) == 0
  {
    if windows != [] {
      ZeroStays(windows[..|windows| - 1]);
    }
  }
}
