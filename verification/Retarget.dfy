/**
 Difficulty adjustment rules: the clamped ratio both retargeting schemes use, the
 Kadena-style adjustment of src/difficulty.rs, and the checks a validator makes.
 The floating-point ratio is modelled as the exact rational expected / actual.
 */
module Retarget {

  import opened Arithmetic
  import opened Words
  import opened Outcomes

  datatype PoWConfig = PoWConfig(
    targetBlockTimeMs: u64,
    interval: u64,
    minDifficulty: u64,
    maxDifficulty: u64)

  /** floor(cur * clamp(expected / actual, 1/4, 4)), converted with a saturating `as u64`. */
  function ScaleClamped(cur: u64, expected: nat, actual: nat): (r: u64)
    requires actual > 0
  {
    var scaled :=
      if expected >= 4 * actual then 4 * cur
      else if 4 * expected <= actual then cur / 4
      else cur * expected / actual;
    Min(scaled, U64_MAX)
  }

  /** r is cur * expected / actual rounded down, but at most four times and at least a quarter of cur. */
  ghost predicate ScalesTo(cur: nat, expected: nat, actual: nat, r: nat) {
    && (expected >= 4 * actual ==> r == 4 * cur)
    && (expected < 4 * actual && 4 * expected <= actual ==> r == cur / 4)
    && (expected < 4 * actual && actual < 4 * expected ==> r * actual <= cur * expected < (r + 1) * actual)
  }

  lemma ScaleIs(cur: u64, expected: nat, actual: nat) returns (r: nat)
    requires actual > 0
    ensures ScalesTo(cur, expected, actual, r)
    ensures ScaleClamped(cur, expected, actual) == if r > 0xFFFF_FFFF_FFFF_FFFF then 0xFFFF_FFFF_FFFF_FFFF else r
  {
    if expected >= 4 * actual {
      r := 4 * cur;
    } else if 4 * expected <= actual {
      r := cur / 4;
    } else {
      DivMod(cur * expected, actual);
      r := cur * expected / actual;
      Distribute(r, 1, actual);
    }
  }

  /** next is such an r, cut at 64 bits, then raised to lo and then lowered to hi. */
  ghost predicate RetargetsTo(cur: nat, expected: nat, actual: nat, lo: nat, hi: nat, next: nat) {
    exists r: nat :: ScalesTo(cur, expected, actual, r) && IsBounded(r, lo, hi, next)
  }

  predicate IsBounded(r: nat, lo: nat, hi: nat, next: nat) {
    var cut := if r > 0xFFFF_FFFF_FFFF_FFFF then 0xFFFF_FFFF_FFFF_FFFF else r;
    next == if hi < lo || hi < cut then hi else if cut < lo then lo else cut
  }

  lemma ClampedScaleIs(cur: u64, expected: nat, actual: nat, lo: u64, hi: u64)
    requires actual > 0
    ensures RetargetsTo(cur, expected, actual, lo, hi, ClampTo(ScaleClamped(cur, expected, actual), lo, hi))
  {
    var r := ScaleIs(cur, expected, actual);
    assert IsBounded(r, lo, hi, ClampTo(ScaleClamped(cur, expected, actual), lo, hi));
  }

  function ClampTo(x: nat, lo: u64, hi: u64): u64 {
    Min(Max(x, lo), hi)
  }

  /** The ratio of one changes nothing. */
  lemma ScaleFixedPoint(cur: u64, t: nat)
    requires t > 0
    ensures ScaleClamped(cur, t, t) == cur
  {
    DivUnique(cur * t, t, cur, 0);
  }

  /** Never more than a factor of four up or down. */
  lemma ScaleWithinFour(cur: u64, expected: nat, actual: nat)
    requires actual > 0
    ensures cur / 4 <= ScaleClamped(cur, expected, actual) <= SatMul64(cur, 4)
  {
    if expected < 4 * actual && actual < 4 * expected {
      RatioAtMostFour(cur, expected, actual);
      RatioAtLeastQuarter(cur, expected, actual);
    }
  }

  lemma RatioAtMostFour(cur: nat, expected: nat, actual: nat)
    requires actual > 0 && expected <= 4 * actual
    ensures cur * expected / actual <= 4 * cur
  {
    MulMono(expected, 4 * actual, cur);
    Associate(cur, 4, actual);
    DivGreatest(cur * expected, actual, 4 * cur + 1);
    Distribute(4 * cur, 1, actual);
  }

  lemma RatioAtLeastQuarter(cur: nat, expected: nat, actual: nat)
    requires actual > 0 && actual <= 4 * expected
    ensures cur / 4 <= cur * expected / actual
  {
    var q := cur / 4;
    MulMono(actual, 4 * expected, q);
    Associate(q, 4, expected);
    MulMono(4 * q, cur, expected);
    DivGreatest(cur * expected, actual, q);
  }

  /** Slower blocks never give a higher difficulty. */
  lemma ScaleAntitone(cur: u64, expected: nat, fast: nat, slow: nat)
    requires 0 < fast <= slow
    ensures ScaleClamped(cur, expected, slow) <= ScaleClamped(cur, expected, fast)
  {
    if expected >= 4 * fast {
      ScaleWithinFour(cur, expected, slow);
    } else if 4 * expected <= slow {
      ScaleWithinFour(cur, expected, fast);
    } else {
      DivAntitone(cur * expected, fast, slow);
    }
  }

  /** The product of u64 values wraps. */
  function ExpectedMs(cfg: PoWConfig, blocksInPeriod: u64): u64 {
    blocksInPeriod * cfg.targetBlockTimeMs % U64_MOD
  }

  /** `DifficultyCalculator::adjust_difficulty_kadena_style` */
  function AdjustKadenaStyle(cfg: PoWConfig, cur: u64, blocksInPeriod: u64, periodMs: u64): u64 {
    if blocksInPeriod == 0 then cur
    else
      var expectedMs := ExpectedMs(cfg, blocksInPeriod);
      if periodMs == 0 then cur
      else ClampTo(ScaleClamped(cur, expectedMs, periodMs), cfg.minDifficulty, cfg.maxDifficulty)
  }

  /** Scaling raises a difficulty unless the actual time is long enough, or there is no room above. */
  lemma ScaleAtMost(cur: u64, expected: nat, actual: nat)
    requires actual > 0
    ensures ScaleClamped(cur, expected, actual) <= cur <==> cur == U64_MAX || cur * expected < (cur + 1) * actual
  {
    if expected >= 4 * actual {
      FastRaises(cur, expected, actual);
    } else if expected <= actual {
      SlowLowers(cur, expected, actual);
      if 4 * expected > actual {
        DivGreatest(cur * expected, actual, cur + 1);
      }
    } else {
      DivGreatest(cur * expected, actual, cur + 1);
    }
  }

  lemma FastRaises(cur: nat, expected: nat, actual: nat)
    requires 0 < 4 * actual <= expected
    ensures cur * expected < (cur + 1) * actual <==> cur == 0
  {
    if cur > 0 {
      MulMono(cur + 1, 4 * cur, actual);
      MulMono(4 * actual, expected, cur);
      Associate(4, actual, cur);
      Associate(4, cur, actual);
    }
  }

  lemma SlowLowers(cur: nat, expected: nat, actual: nat)
    requires 0 < actual && expected <= actual
    ensures cur * expected < (cur + 1) * actual
  {
    MulMono(expected, actual, cur);
    Distribute(cur, 1, actual);
  }

  /** With these bounds the adjusted difficulty is not above the current one. */
  predicate DoesNotRaise(cur: u64, expected: nat, actual: nat, lo: u64, hi: u64) {
    hi <= cur || (lo <= cur && (cur == U64_MAX || cur * expected < (cur + 1) * actual))
  }

  lemma ClampedAtMost(cur: u64, expected: nat, actual: nat, lo: u64, hi: u64)
    requires actual > 0
    ensures ClampTo(ScaleClamped(cur, expected, actual), lo, hi) <= cur <==> DoesNotRaise(cur, expected, actual, lo, hi)
  {
    ScaleAtMost(cur, expected, actual);
  }

  /**
   A longer period never gives a higher difficulty, with one exception: a period
   of zero milliseconds skips the adjustment, so a longer one gives a higher
   difficulty exactly when it raises the current one.
   */
  lemma AdjustAntitoneIff(cfg: PoWConfig, cur: u64, blocks: u64, fast: u64, slow: u64)
    requires fast <= slow
    ensures AdjustKadenaStyle(cfg, cur, blocks, slow) <= AdjustKadenaStyle(cfg, cur, blocks, fast) <==>
      || blocks == 0
      || fast > 0
      || slow == 0
      || DoesNotRaise(cur, ExpectedMs(cfg, blocks), slow, cfg.minDifficulty, cfg.maxDifficulty)
  {
    if blocks != 0 {
      if fast > 0 {
        ScaleAntitone(cur, ExpectedMs(cfg, blocks), fast, slow);
      } else if slow > 0 {
        ClampedAtMost(cur, ExpectedMs(cfg, blocks), slow, cfg.minDifficulty, cfg.maxDifficulty);
      }
    }
  }

  /** `PoWConfig::default` */
  const DEFAULT_CONFIG: PoWConfig := PoWConfig(30_000, 2016, 1_000, U64_MAX)

  /** The exception is real: no time at all keeps 1,000,000, a second for 2016 blocks quadruples it. */
  lemma ZeroPeriodIsSkipped()
    ensures AdjustKadenaStyle(DEFAULT_CONFIG, 1_000_000, 2016, 0) == 1_000_000
    ensures AdjustKadenaStyle(DEFAULT_CONFIG, 1_000_000, 2016, 1000) == 4_000_000
  {
  }

  /** What the adjustment is worth: no change over no blocks or in no time, otherwise the bounded ratio. */
  lemma AdjustmentValue(cfg: PoWConfig, cur: u64, blocks: u64, periodMs: u64)
    ensures blocks == 0 || periodMs == 0 ==> AdjustKadenaStyle(cfg, cur, blocks, periodMs) == cur
    ensures blocks > 0 && periodMs > 0 ==>
      RetargetsTo(cur, blocks * cfg.targetBlockTimeMs % 0x1_0000_0000_0000_0000, periodMs,
                  cfg.minDifficulty, cfg.maxDifficulty, AdjustKadenaStyle(cfg, cur, blocks, periodMs))
  {
    if blocks > 0 && periodMs > 0 {
      ClampedScaleIs(cur, ExpectedMs(cfg, blocks), periodMs, cfg.minDifficulty, cfg.maxDifficulty);
    }
  }

  /** `DifficultyCalculator::should_adjust`; no positive height is a multiple of zero. */
  predicate ShouldAdjust(cfg: PoWConfig, height: nat) {
    height > 0 && cfg.interval > 0 && height % cfg.interval == 0
  }

  /** `DifficultyCalculator::validate_difficulty` */
  function ValidateDifficulty(cfg: PoWConfig, difficulty: u64): Result<(), PoWError> {
    if difficulty < cfg.minDifficulty then Err(InvalidDifficulty)
    else if difficulty > cfg.maxDifficulty then Err(InvalidDifficulty)
    else Ok(())
  }

  /** `BlockValidator::validate_difficulty_adjustment` */
  function ValidateAdjustment(previous: u64, current: u64): Result<(), PoWError> {
    if current > SatMul64(previous, 4) then Err(InvalidBlock(IncreaseTooLarge))
    else if current < previous / 4 then Err(InvalidBlock(DecreaseTooLarge))
    else Ok(())
  }

  /** A step from an allowed difficulty gives a difficulty that passes both checks. */
  lemma AdjustmentIsValid(cfg: PoWConfig, cur: u64, blocksInPeriod: u64, periodMs: u64)
    requires ValidateDifficulty(cfg, cur).Ok?
    ensures var next := AdjustKadenaStyle(cfg, cur, blocksInPeriod, periodMs);
            ValidateDifficulty(cfg, next).Ok? && ValidateAdjustment(cur, next).Ok?
  {
    if blocksInPeriod != 0 && periodMs != 0 {
      ScaleWithinFour(cur, ExpectedMs(cfg, blocksInPeriod), periodMs);
    }
  }

  /** What the two validators let through, in numbers. */
  lemma ValidatorsDecide(cfg: PoWConfig, previous: u64, current: u64)
    ensures ValidateDifficulty(cfg, current) ==
      if cfg.minDifficulty <= current <= cfg.maxDifficulty then Ok(()) else Err(InvalidDifficulty)
    ensures ValidateAdjustment(previous, current).Ok? <==> previous / 4 <= current <= 4 * previous
    ensures current > 4 * previous ==> ValidateAdjustment(previous, current) == Err(InvalidBlock(IncreaseTooLarge))
    ensures current < previous / 4 ==> ValidateAdjustment(previous, current) == Err(InvalidBlock(DecreaseTooLarge))
  {
  }

  /** A period one percent too long lowers 1,000,000 by one percent, rounded down. */
  lemma OnePercentSlower()
    ensures AdjustKadenaStyle(DEFAULT_CONFIG, 1_000_000, 2016, 61_084_800) == 990_099
  {
  }
}
