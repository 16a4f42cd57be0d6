/**
 The windowed difficulty adjustment manager (src/difficulty_adjustment.rs).
 Differences and products of u64 values wrap; the ratio is the exact rational.
 */
module BlockTimes {

  import opened Arithmetic
  import opened Words
  import opened Outcomes
  import opened Retarget
  import opened Sequences

  datatype BlockTimeRecord = BlockTimeRecord(height: u64, timestamp: u64)

  datatype AdjustmentRecord = AdjustmentRecord(
    blockHeight: u64,
    previousDifficulty: u64,
    newDifficulty: u64,
    blocksInPeriod: u64,
    timeForPeriodMs: u64,
    expectedTimeMs: u64)

  datatype Config = Config(interval: u64, targetSecs: u64, minDifficulty: u64, maxDifficulty: u64)

  datatype State = State(currentDifficulty: u64, blockTimes: seq<BlockTimeRecord>, history: seq<AdjustmentRecord>)

  datatype AdjustError = NoBlockTimes

  // ---------------------------------------------------------------- steps on values

  lemma DropFirst<T>(s: seq<T>, n: nat)
    requires |s| > n
    ensures LastOf(s[1..], n) == LastOf(s, n)
  {
  }

  function Difference(a: u64, b: u64): (d: u64)
    ensures b <= a ==> d == a - b
  {
    if b <= a then a - b else a + U64_MOD - b
  }

  function Product(a: u64, b: u64): (p: u64)
    ensures a * b < U64_MOD ==> p == a * b
  {
    var p := a * b;
    assert p >= 0;
    p % U64_MOD
  }

  /** `record_block_time` */
  function RecordTime(cfg: Config, st: State, r: BlockTimeRecord): State {
    st.(blockTimes := LastOf(st.blockTimes + [r], cfg.interval + 1))
  }

  /** The difficulty a window that spans these blocks and seconds calls for. */
  function NextDifficulty(cfg: Config, current: u64, blocks: u64, secs: u64): u64
    requires secs > 0
  {
    ClampTo(ScaleClamped(current, Product(blocks, cfg.targetSecs), secs), cfg.minDifficulty, cfg.maxDifficulty)
  }

  /** `calculate_new_difficulty` */
  function Calculate(cfg: Config, st: State, blockHeight: u64): (State, Result<u64, AdjustError>) {
    if |st.blockTimes| < cfg.interval then (st, Ok(st.currentDifficulty))
    else if st.blockTimes == [] then (st, Err(NoBlockTimes))
    else
      var first, last := st.blockTimes[0], st.blockTimes[|st.blockTimes| - 1];
      var blocks, secs := Difference(last.height, first.height), Difference(last.timestamp, first.timestamp);
      if secs == 0 then (st, Ok(st.currentDifficulty))
      else
        var next := NextDifficulty(cfg, st.currentDifficulty, blocks, secs);
        var record := AdjustmentRecord(blockHeight, st.currentDifficulty, next, blocks, Product(secs, 1000),
                                       Product(Product(blocks, cfg.targetSecs), 1000));
        (st.(currentDifficulty := next, history := st.history + [record]), Ok(next))
  }

  /** `get_recent_adjustments`: reversed, cut, and reversed back. */
  function RecentAdjustments(history: seq<AdjustmentRecord>, count: nat): seq<AdjustmentRecord> {
    Reverse(Reverse(history)[..Min(count, |history|)])
  }

  /** That is the last `count` adjustments in their own order. */
  lemma RecentAreLast(history: seq<AdjustmentRecord>, count: nat)
    ensures RecentAdjustments(history, count) == LastOf(history, count)
  {
  }

  // ---------------------------------------------------------------- the manager

  class DifficultyAdjustmentManager {
    const config: Config
    var currentDifficulty: u64
    var blockTimes: seq<BlockTimeRecord>
    var adjustmentHistory: seq<AdjustmentRecord>

    ghost function Model(): State
      reads this
    {
      State(currentDifficulty, blockTimes, adjustmentHistory)
    }

    constructor (initialDifficulty: u64, config: Config)
      ensures this.config == config && Model() == State(initialDifficulty, [], [])
    {
      this.config := config;
      currentDifficulty, blockTimes, adjustmentHistory := initialDifficulty, [], [];
    }

    method RecordBlockTime(height: u64, timestamp: u64)
      modifies this`blockTimes
      ensures Model() == RecordTime(config, old(Model()), BlockTimeRecord(height, timestamp))
    {
      blockTimes := blockTimes + [BlockTimeRecord(height, timestamp)];
      ghost var all := blockTimes;
      while |blockTimes| > config.interval + 1
        invariant LastOf(blockTimes, config.interval + 1) == LastOf(all, config.interval + 1)
      {
        DropFirst(blockTimes, config.interval + 1);
        blockTimes := blockTimes[1..];
      }
    }

    method CalculateNewDifficulty(blockHeight: u64) returns (r: Result<u64, AdjustError>)
      modifies this`currentDifficulty, this`adjustmentHistory
      ensures (Model(), r) == Calculate(config, old(Model()), blockHeight)
    {
      if |blockTimes| < config.interval {
        return Ok(currentDifficulty);
      }
      if blockTimes == [] {
        return Err(NoBlockTimes);
      }
      var first, last := blockTimes[0], blockTimes[|blockTimes| - 1];
      var blocks := Difference(last.height, first.height);
      var secs := Difference(last.timestamp, first.timestamp);
      if secs == 0 {
        return Ok(currentDifficulty);
      }
      var expectedSecs := Product(blocks, config.targetSecs);
      var scaled := ScaleClamped(currentDifficulty, expectedSecs, secs);
      var final := ClampTo(scaled, config.minDifficulty, config.maxDifficulty);
      adjustmentHistory := adjustmentHistory
        + [AdjustmentRecord(blockHeight, currentDifficulty, final, blocks, Product(secs, 1000),
                            Product(expectedSecs, 1000))];
      currentDifficulty := final;
      return Ok(final);
    }

    method SetDifficulty(difficulty: u64)
      modifies this`currentDifficulty
      ensures Model() == old(Model()).(currentDifficulty := difficulty)
    {
      currentDifficulty := difficulty;
    }
  }

  // ---------------------------------------------------------------- the retargeting rule

  /** A window whose blocks follow one another at exactly the target spacing. */
  ghost predicate ExactSpacing(cfg: Config, times: seq<BlockTimeRecord>) {
    forall i :: 0 <= i < |times| ==>
      && times[i].height == times[0].height + i
      && times[i].timestamp == times[0].timestamp + i * cfg.targetSecs
  }

  /** At exactly the target spacing the difficulty does not move. */
  lemma ExactSpacingIsFixedPoint(cfg: Config, st: State, blockHeight: u64)
    requires ExactSpacing(cfg, st.blockTimes) && cfg.minDifficulty <= st.currentDifficulty <= cfg.maxDifficulty
    ensures Calculate(cfg, st, blockHeight).0.currentDifficulty == st.currentDifficulty
  {
    if st.blockTimes != [] {
      var n := |st.blockTimes| - 1;
      var last := st.blockTimes[n];
      MulMono(0, n, cfg.targetSecs);
      if n * cfg.targetSecs > 0 {
        ScaleFixedPoint(st.currentDifficulty, n * cfg.targetSecs);
      }
    }
  }

  /** A window `calculate_new_difficulty` looks at. */
  predicate Full(cfg: Config, times: seq<BlockTimeRecord>) {
    |times| >= cfg.interval && times != []
  }

  function BlocksOf(times: seq<BlockTimeRecord>): u64
    requires times != []
  {
    Difference(times[|times| - 1].height, times[0].height)
  }

  function SecondsOf(times: seq<BlockTimeRecord>): u64
    requires times != []
  {
    Difference(times[|times| - 1].timestamp, times[0].timestamp)
  }

  function After(cfg: Config, st: State, blockHeight: u64): u64 {
    Calculate(cfg, st, blockHeight).0.currentDifficulty
  }

  /**
   The longer the same blocks took, the lower the next difficulty, with one
   exception: a window of zero seconds is skipped, so a longer one gives a higher
   difficulty exactly when it raises the current one.
   */
  lemma CalculateAntitoneIff(cfg: Config, fast: State, slow: State, blockHeight: u64)
    requires fast.currentDifficulty == slow.currentDifficulty
    requires Full(cfg, fast.blockTimes) && Full(cfg, slow.blockTimes)
    requires BlocksOf(fast.blockTimes) == BlocksOf(slow.blockTimes)
    requires SecondsOf(fast.blockTimes) <= SecondsOf(slow.blockTimes)
    ensures After(cfg, slow, blockHeight) <= After(cfg, fast, blockHeight) <==>
      || SecondsOf(fast.blockTimes) > 0
      || SecondsOf(slow.blockTimes) == 0
      || DoesNotRaise(slow.currentDifficulty, Product(BlocksOf(slow.blockTimes), cfg.targetSecs),
                      SecondsOf(slow.blockTimes), cfg.minDifficulty, cfg.maxDifficulty)
  {
    var cur, expected := slow.currentDifficulty, Product(BlocksOf(slow.blockTimes), cfg.targetSecs);
    if SecondsOf(fast.blockTimes) > 0 {
      ScaleAntitone(cur, expected, SecondsOf(fast.blockTimes), SecondsOf(slow.blockTimes));
    } else if SecondsOf(slow.blockTimes) > 0 {
      ClampedAtMost(cur, expected, SecondsOf(slow.blockTimes), cfg.minDifficulty, cfg.maxDifficulty);
    }
  }

  /** u64 subtraction and multiplication, in numbers. */
  lemma WordsWrap(a: u64, b: u64)
    ensures Difference(a, b) == (a + 0x1_0000_0000_0000_0000 - b) % 0x1_0000_0000_0000_0000
    ensures Product(a, b) == a * b % 0x1_0000_0000_0000_0000
  {
  }

  /** The window is not looked at, or has no length: nothing changes. */
  lemma NothingToAdjust(cfg: Config, st: State, blockHeight: u64)
    ensures |st.blockTimes| < cfg.interval ==> Calculate(cfg, st, blockHeight) == (st, Ok(st.currentDifficulty))
    ensures |st.blockTimes| >= cfg.interval && st.blockTimes == [] ==>
      Calculate(cfg, st, blockHeight) == (st, Err(NoBlockTimes))
    ensures Full(cfg, st.blockTimes) && SecondsOf(st.blockTimes) == 0 ==>
      Calculate(cfg, st, blockHeight) == (st, Ok(st.currentDifficulty))
  {
  }

  /**
   Otherwise the result is the bounded ratio of the target and the actual time of
   the window, and one record says so.
   */
  lemma CalculatedValue(cfg: Config, st: State, blockHeight: u64)
    requires Full(cfg, st.blockTimes) && SecondsOf(st.blockTimes) > 0
    ensures var first, last := st.blockTimes[0], st.blockTimes[|st.blockTimes| - 1];
            && SecondsOf(st.blockTimes)
              == (last.timestamp + 0x1_0000_0000_0000_0000 - first.timestamp) % 0x1_0000_0000_0000_0000
            && BlocksOf(st.blockTimes)
              == (last.height + 0x1_0000_0000_0000_0000 - first.height) % 0x1_0000_0000_0000_0000
    ensures var blocks, secs := BlocksOf(st.blockTimes), SecondsOf(st.blockTimes);
            var expected: nat := blocks * cfg.targetSecs % 0x1_0000_0000_0000_0000;
            var (st', r) := Calculate(cfg, st, blockHeight);
            && r == Ok(st'.currentDifficulty)
            && RetargetsTo(st.currentDifficulty, expected, secs, cfg.minDifficulty, cfg.maxDifficulty,
                           st'.currentDifficulty)
            && st'.blockTimes == st.blockTimes
            && st'.history == st.history + [AdjustmentRecord(
                 blockHeight, st.currentDifficulty, st'.currentDifficulty, blocks,
                 secs * 1000 % 0x1_0000_0000_0000_0000, expected * 1000 % 0x1_0000_0000_0000_0000)]
  {
    var first, last := st.blockTimes[0], st.blockTimes[|st.blockTimes| - 1];
    var blocks, secs := BlocksOf(st.blockTimes), SecondsOf(st.blockTimes);
    WordsWrap(last.timestamp, first.timestamp);
    WordsWrap(last.height, first.height);
    WordsWrap(blocks, cfg.targetSecs);
    WordsWrap(secs, 1000);
    WordsWrap(Product(blocks, cfg.targetSecs), 1000);
    ClampedScaleIs(st.currentDifficulty, Product(blocks, cfg.targetSecs), secs, cfg.minDifficulty, cfg.maxDifficulty);
  }

  function TwoBlocks(seconds: u64): State {
    State(1_000_000, [BlockTimeRecord(1, 0), BlockTimeRecord(2, seconds)], [])
  }

  /** The exception is real: two blocks in no time keep 1,000,000, in one second out of thirty they quadruple it. */
  lemma ZeroWindowIsSkipped(blockHeight: u64)
    ensures var cfg := Config(2, 30, 1_000, U64_MAX);
            After(cfg, TwoBlocks(0), blockHeight) == 1_000_000 && After(cfg, TwoBlocks(1), blockHeight) == 4_000_000
  {
  }

  /** The result is within the bounds if and only if the window is adjusted for, or the difficulty was within them. */
  lemma CalculateInBoundsIff(cfg: Config, st: State, blockHeight: u64)
    requires cfg.minDifficulty <= cfg.maxDifficulty
    ensures cfg.minDifficulty <= After(cfg, st, blockHeight) <= cfg.maxDifficulty <==>
      || (Full(cfg, st.blockTimes) && SecondsOf(st.blockTimes) > 0)
      || cfg.minDifficulty <= st.currentDifficulty <= cfg.maxDifficulty
  {
  }

  // ---------------------------------------------------------------- runs

  datatype Event =
    | RecordBlockTime(record: BlockTimeRecord)
    | CalculateNewDifficulty(blockHeight: u64)
    | SetDifficulty(difficulty: u64)

  function Step(cfg: Config, st: State, ev: Event): State {
    match ev
    case RecordBlockTime(r) => RecordTime(cfg, st, r)
    case CalculateNewDifficulty(h) => Calculate(cfg, st, h).0
    case SetDifficulty(d) => st.(currentDifficulty := d)
  }

  function Run(cfg: Config, initial: u64, evs: seq<Event>): State {
    if evs == [] then State(initial, [], []) else Step(cfg, Run(cfg, initial, evs[..|evs| - 1]), evs[|evs| - 1])
  }

  /** All block times recorded along a run. */
  function Recorded(evs: seq<Event>): seq<BlockTimeRecord> {
    if evs == [] then []
    else
      var last := evs[|evs| - 1];
      Recorded(evs[..|evs| - 1]) + if last.RecordBlockTime? then [last.record] else []
  }

  lemma LastOfLast<T>(s: seq<T>, x: T, n: nat)
    requires n > 0
    ensures LastOf(LastOf(s, n) + [x], n) == LastOf(s + [x], n)
  {
  }

  /** The window is always the last interval + 1 recorded blocks. */
  lemma {:induction false} WindowIsSuffix(cfg: Config, initial: u64, evs: seq<Event>)
    ensures Run(cfg, initial, evs).blockTimes == LastOf(Recorded(evs), cfg.interval + 1)
  {
    if evs != [] {
      WindowIsSuffix(cfg, initial, evs[..|evs| - 1]);
      var last := evs[|evs| - 1];
      if last.RecordBlockTime? {
        LastOfLast(Recorded(evs[..|evs| - 1]), last.record, cfg.interval + 1);
      } else {
        assert Recorded(evs) == Recorded(evs[..|evs| - 1]);
      }
    }
  }

  /** Each adjustment starts from the difficulty the one before it set, and the last one set the current. */
  ghost predicate Chained(initial: u64, history: seq<AdjustmentRecord>, current: u64) {
    if history == [] then current == initial
    else
      var last := history[|history| - 1];
      last.newDifficulty == current && Chained(initial, history[..|history| - 1], last.previousDifficulty)
  }

  /** Record i starts from the difficulty in force before it, and the last record's result is in force after it. */
  ghost predicate LinksAt(initial: u64, history: seq<AdjustmentRecord>, current: u64, i: nat)
    requires i < |history|
  {
    && history[i].previousDifficulty == (if i == 0 then initial else history[i - 1].newDifficulty)
    && (i == |history| - 1 ==> history[i].newDifficulty == current)
  }

  lemma {:induction false} ChainedNeighbours(initial: u64, history: seq<AdjustmentRecord>, current: u64, i: nat)
    requires Chained(initial, history, current) && i < |history|
    ensures LinksAt(initial, history, current, i)
    decreases |history|
  {
    if i < |history| - 1 {
      var init, last := history[..|history| - 1], history[|history| - 1];
      ChainedNeighbours(initial, init, last.previousDifficulty, i);
    }
  }

  ghost predicate NeverSet(evs: seq<Event>) {
    forall i :: 0 <= i < |evs| ==> !evs[i].SetDifficulty?
  }

  lemma {:induction false} RunIsChained(cfg: Config, initial: u64, evs: seq<Event>)
    requires NeverSet(evs)
    ensures Chained(initial, Run(cfg, initial, evs).history, Run(cfg, initial, evs).currentDifficulty)
  {
    if evs != [] {
      var st := Run(cfg, initial, evs[..|evs| - 1]);
      RunIsChained(cfg, initial, evs[..|evs| - 1]);
      var st' := Step(cfg, st, evs[|evs| - 1]);
      if st'.history != st.history {
        assert st'.history[..|st.history|] == st.history;
      }
    }
  }

  /** Without `set_difficulty` each adjustment starts where the one before ended; the last is in force. */
  lemma HistoryChains(cfg: Config, initial: u64, evs: seq<Event>)
    requires NeverSet(evs)
    ensures var st := Run(cfg, initial, evs);
            && (forall i :: 0 <= i < |st.history| ==> LinksAt(initial, st.history, st.currentDifficulty, i))
            && (st.history == [] ==> st.currentDifficulty == initial)
  {
    RunIsChained(cfg, initial, evs);
    var st := Run(cfg, initial, evs);
    forall i | 0 <= i < |st.history|
      ensures LinksAt(initial, st.history, st.currentDifficulty, i)
    {
      ChainedNeighbours(initial, st.history, st.currentDifficulty, i);
    }
  }

  predicate InBounds(cfg: Config, difficulty: u64) {
    cfg.minDifficulty <= difficulty <= cfg.maxDifficulty
  }

  /** A recorded adjustment stays within the bounds and within a factor of four. */
  predicate GoodAdjustment(cfg: Config, r: AdjustmentRecord) {
    InBounds(cfg, r.newDifficulty) && r.previousDifficulty / 4 <= r.newDifficulty <= 4 * r.previousDifficulty
  }

  lemma CalculateIsGood(cfg: Config, st: State, blockHeight: u64)
    requires InBounds(cfg, st.currentDifficulty)
    ensures var st' := Calculate(cfg, st, blockHeight).0;
            && InBounds(cfg, st'.currentDifficulty)
            && (st'.history == st.history
                || exists r :: st'.history == st.history + [r] && GoodAdjustment(cfg, r))
  {
    if Full(cfg, st.blockTimes) && SecondsOf(st.blockTimes) > 0 {
      ScaleWithinFour(st.currentDifficulty, Product(BlocksOf(st.blockTimes), cfg.targetSecs), SecondsOf(st.blockTimes));
      var st' := Calculate(cfg, st, blockHeight).0;
      var r := st'.history[|st.history|];
      assert st'.history == st.history + [r] && GoodAdjustment(cfg, r);
    }
  }

  /**
   Along every run without `set_difficulty`, from an initial difficulty within the
   bounds, the difficulty stays within them and no adjustment moves it by more
   than a factor of four.
   */
  lemma {:induction false} RunStaysInBounds(cfg: Config, initial: u64, evs: seq<Event>)
    requires NeverSet(evs) && InBounds(cfg, initial)
    ensures var st := Run(cfg, initial, evs);
            && InBounds(cfg, st.currentDifficulty)
            && forall i :: 0 <= i < |st.history| ==> GoodAdjustment(cfg, st.history[i])
  {
    if evs != [] {
      var init, last := evs[..|evs| - 1], evs[|evs| - 1];
      RunStaysInBounds(cfg, initial, init);
      if last.CalculateNewDifficulty? {
        CalculateIsGood(cfg, Run(cfg, initial, init), last.blockHeight);
      }
    }
  }
}
