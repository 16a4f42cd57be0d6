/**
 The multi-chain consensus engine (src/consensus.rs).  Every call that takes the
 write lock is one atomic step over the map of chain states and the shared block
 history; the clock is an input.
 */
module Consensus {

  import Arithmetic
  import opened Words
  import opened Outcomes
  import opened Encoding
  import opened Targets
  import opened Work
  import opened Retarget
  import opened Sums
  import opened Sequences

  const INITIAL_DIFFICULTY: u64 := 1_000_000

  datatype ChainState = ChainState(
    currentHeight: nat,
    currentDifficulty: u64,
    lastBlockTime: u64,
    totalWork: nat,
    blocksInPeriod: u64,
    periodStartTime: u64)

  datatype BlockRecord = BlockRecord(
    chainId: u32,
    height: u64,
    hash: seq<Byte>,
    timestamp: u64,
    difficulty: u64,
    minerAddress: seq<Byte>,
    nonce: u64)

  datatype State = State(chains: map<u32, ChainState>, history: seq<BlockRecord>)

  const EMPTY: State := State(map[], [])

  // ---------------------------------------------------------------- the steps, on values

  /** `PoWConsensus::initialize_chain` */
  function Initialize(st: State, chainId: u32, now: u64): (State, Result<(), PoWError>) {
    if chainId >= 20 then (st, Err(InvalidBlock(BadChainId)))
    else if chainId in st.chains then (st, Err(InvalidBlock(ChainAlreadyInitialized)))
    else (st.(chains := st.chains[chainId := ChainState(0, INITIAL_DIFFICULTY, now, 0, 0, now)]), Ok(()))
  }

  /** The checks at the head of `submit_block`; None when the proof is taken. */
  function Rejection(st: State, proof: WorkProof): Option<PoWError> {
    if proof.chainId !in st.chains then Some(InvalidBlock(ChainNotFound))
    else
      var s := st.chains[proof.chainId];
      if proof.blockHeight != s.currentHeight + 1 then Some(InvalidBlock(BadHeight))
      else if s.currentDifficulty == 0 then Some(InvalidDifficulty)
      else if !SliceLe(proof.hashResult, WorkTarget(s.currentDifficulty)) then Some(WorkProofVerificationFailed)
      else None
  }

  /** The u64 difference of two clock readings, wrapping. */
  function Elapsed(now: u64, since: u64): u64 {
    (now + U64_MOD - since) % U64_MOD
  }

  function PeriodMs(now: u64, since: u64): u64 {
    Elapsed(now, since) * 1000 % U64_MOD
  }

  function AcceptBlock(cfg: PoWConfig, s: ChainState, proof: WorkProof, now: u64): ChainState {
    var s1 := s.(currentHeight := s.currentHeight + 1, lastBlockTime := now,
                 blocksInPeriod := Increment(s.blocksInPeriod), totalWork := s.totalWork + proof.difficultyAchieved);
    if s1.blocksInPeriod >= cfg.interval then
      var next := AdjustKadenaStyle(cfg, s.currentDifficulty, s1.blocksInPeriod, PeriodMs(now, s.periodStartTime));
      s1.(currentDifficulty := next, blocksInPeriod := 0, periodStartTime := now)
    else s1
  }

  function RecordOf(proof: WorkProof, difficulty: u64, now: u64): BlockRecord {
    BlockRecord(proof.chainId, proof.blockHeight, proof.hashResult, now, difficulty, proof.minerAddress, proof.nonce)
  }

  /** `PoWConsensus::submit_block` */
  function Submit(cfg: PoWConfig, st: State, proof: WorkProof, now: u64): (State, Result<bool, PoWError>) {
    match Rejection(st, proof)
    case Some(error) => (st, Err(error))
    case None =>
      var s := AcceptBlock(cfg, st.chains[proof.chainId], proof, now);
      (State(st.chains[proof.chainId := s], st.history + [RecordOf(proof, s.currentDifficulty, now)]), Ok(true))
  }

  /** `PoWConsensus::create_work_package` */
  function CreateWork(sha: Sha512, st: State, chainId: u32, blockHash: seq<Byte>, parentHash: seq<Byte>,
                      merkleRoot: seq<Byte>, now: u64): Result<WorkPackage, PoWError>
  {
    if chainId !in st.chains then Err(InvalidBlock(ChainNotFound))
    else
      var s := st.chains[chainId];
      NewWorkPackage(sha, chainId, (s.currentHeight + 1) % U64_MOD, blockHash, parentHash, merkleRoot, now,
                     s.currentDifficulty)
  }

  /** The records of one chain, oldest first. */
  function Records(history: seq<BlockRecord>, c: u32): seq<BlockRecord> {
    if history == [] then []
    else
      var last := history[|history| - 1];
      Records(history[..|history| - 1], c) + if last.chainId == c then [last] else []
  }

  // ---------------------------------------------------------------- the engine

  class PoWConsensus {
    const config: PoWConfig
    var chainStates: map<u32, ChainState>
    var blockHistory: seq<BlockRecord>

    ghost function Model(): State
      reads this
    {
      State(chainStates, blockHistory)
    }

    constructor (config: PoWConfig)
      ensures this.config == config && Model() == EMPTY
    {
      this.config := config;
      chainStates := map[];
      blockHistory := [];
    }

    method InitializeChain(chainId: u32, now: u64) returns (r: Result<(), PoWError>)
      modifies this
      ensures (Model(), r) == Initialize(old(Model()), chainId, now)
    {
      if chainId >= 20 {
        return Err(InvalidBlock(BadChainId));
      }
      if chainId in chainStates {
        return Err(InvalidBlock(ChainAlreadyInitialized));
      }
      chainStates := chainStates[chainId := ChainState(0, INITIAL_DIFFICULTY, now, 0, 0, now)];
      return Ok(());
    }

    method SubmitBlock(proof: WorkProof, now: u64) returns (r: Result<bool, PoWError>)
      modifies this
      ensures (Model(), r) == Submit(config, old(Model()), proof, now)
    {
      if proof.chainId !in chainStates {
        return Err(InvalidBlock(ChainNotFound));
      }
      var state := chainStates[proof.chainId];
      if proof.blockHeight != state.currentHeight + 1 {
        return Err(InvalidBlock(BadHeight));
      }
      var target := CalculateWorkTarget(state.currentDifficulty);
      if target.Err? {
        return Err(target.error);
      }
      if !SliceLe(proof.hashResult, target.value) {
        return Err(WorkProofVerificationFailed);
      }
      state := state.(currentHeight := state.currentHeight + 1);
      state := state.(lastBlockTime := now);
      state := state.(blocksInPeriod := Increment(state.blocksInPeriod));
      state := state.(totalWork := state.totalWork + proof.difficultyAchieved);
      var periodMs := PeriodMs(now, state.periodStartTime);
      if state.blocksInPeriod >= config.interval {
        var newDifficulty := AdjustKadenaStyle(config, state.currentDifficulty, state.blocksInPeriod, periodMs);
        state := state.(currentDifficulty := newDifficulty);
        state := state.(blocksInPeriod := 0);
        state := state.(periodStartTime := now);
      }
      chainStates := chainStates[proof.chainId := state];
      blockHistory := blockHistory + [RecordOf(proof, state.currentDifficulty, now)];
      return Ok(true);
    }

    /** `get_stats`, but for the uptime. */
    method GetStats() returns (stats: ConsensusStats)
      ensures stats == StatsOf(Model())
    {
      var totalBlocks, totalWork := |blockHistory|, 0;
      for i := 0 to |blockHistory|
        invariant totalWork == SumDifficulty(blockHistory[..i])
      {
        assert blockHistory[..i + 1][..i] == blockHistory[..i];
        totalWork := totalWork + blockHistory[i].difficulty;
      }
      assert blockHistory[..|blockHistory|] == blockHistory;
      var average := if blockHistory != [] then totalWork / totalBlocks else 0;
      stats := ConsensusStats(|chainStates|, totalBlocks, totalWork, average);
    }
  }

  datatype ConsensusStats = ConsensusStats(
    activeChains: nat,
    totalBlocks: nat,
    totalWork: nat,
    averageDifficulty: nat)

  function SumDifficulty(recs: seq<BlockRecord>): nat {
    if recs == [] then 0 else SumDifficulty(recs[..|recs| - 1]) + recs[|recs| - 1].difficulty
  }

  function StatsOf(st: State): ConsensusStats {
    var work := SumDifficulty(st.history);
    ConsensusStats(|st.chains|, |st.history|, work, if st.history == [] then 0 else Quotient(work, |st.history|))
  }

  function Quotient(x: nat, n: nat): (q: nat)
    requires n > 0
    ensures q * n <= x < (q + 1) * n
  {
    Arithmetic.DivMod(x, n);
    Arithmetic.Distribute(x / n, 1, n);
    x / n
  }

  /** `get_block_history`: filter, rev, take */
  function BlockHistory(history: seq<BlockRecord>, c: u32, limit: nat): seq<BlockRecord> {
    var newestFirst := Reverse(Records(history, c));
    newestFirst[..Min(limit, |newestFirst|)]
  }

  // ---------------------------------------------------------------- what the calls answer and change

  lemma InitializeOutcome(st: State, c: u32, now: u64)
    ensures var (st', r) := Initialize(st, c, now);
            && (c >= 20 ==> r == Err(InvalidBlock(BadChainId)))
            && (c < 20 && c in st.chains ==> r == Err(InvalidBlock(ChainAlreadyInitialized)))
            && (r.Err? ==> st' == st)
            && (c < 20 && c !in st.chains ==>
                  && r == Ok(())
                  && st' == State(st.chains[c := ChainState(0, 1_000_000, now, 0, 0, now)], st.history))
  {
  }

  /**
   A submission is taken exactly when the chain exists, the height is the next one,
   the difficulty is positive and the claimed hash does not exceed the target of
   that difficulty, as numbers when it has 64 bytes; the first of these that fails
   names the error, and a refusal changes nothing.
   */
  lemma SubmitOutcome(cfg: PoWConfig, st: State, proof: WorkProof, now: u64)
    ensures var c, (st', r) := proof.chainId, Submit(cfg, st, proof, now);
            && (c !in st.chains ==> r == Err(InvalidBlock(ChainNotFound)))
            && (c in st.chains ==>
                  var height, difficulty := st.chains[c].currentHeight, st.chains[c].currentDifficulty;
                  && (proof.blockHeight != height + 1 ==> r == Err(InvalidBlock(BadHeight)))
                  && (proof.blockHeight == height + 1 && difficulty == 0 ==> r == Err(InvalidDifficulty))
                  && (proof.blockHeight == height + 1 && difficulty > 0 ==>
                        && r == (if SliceLe(proof.hashResult, WorkTarget(difficulty)) then Ok(true)
                                 else Err(WorkProofVerificationFailed))
                        && (|proof.hashResult| == 64 ==>
                              (r == Ok(true) <==> BE(proof.hashResult) <= BE(WorkTarget(difficulty))))))
            && (r.Err? ==> st' == st)
  {
    var c := proof.chainId;
    if c in st.chains && st.chains[c].currentDifficulty > 0 && |proof.hashResult| == 64 {
      LexIsNumeric(proof.hashResult, WorkTarget(st.chains[c].currentDifficulty));
    }
  }

  /** The largest 64-byte hash is refused by every chain whose target is not all ones. */
  lemma AllOnesRefused(cfg: PoWConfig, proof: WorkProof)
    requires proof.chainId == 0 && proof.blockHeight == 1 && proof.hashResult == Repeat(255, 64)
    ensures Submit(cfg, Initialize(EMPTY, 0, 0).0, proof, 0).1 == Err(WorkProofVerificationFailed)
  {
    var st := Initialize(EMPTY, 0, 0).0;
    SubmitOutcome(cfg, st, proof, 0);
    var a, b := proof.hashResult, WorkTarget(1_000_000);
    StartTargetIsLower();
    assert b[63] < a[63];
    if SliceLe(a, b) {
      SliceLeIff(a, b);
    }
  }

  lemma StartTargetIsLower()
    ensures WorkTarget(1_000_000)[63] == 0
  {
    Pow2Double(8, 256);
    assert Pow2(19) == 524288 && Pow2(20) == 1048576 by {
      Pow2Byte();
      Pow2Add(16, 3);
      Pow2Add(16, 4);
    }
    FloorLog2Unique(1_000_000, 19);
  }

  /** What an accepted block writes: the record in the proof's own words, and the chain one block on. */
  lemma SubmitEffect(cfg: PoWConfig, st: State, proof: WorkProof, now: u64)
    requires Submit(cfg, st, proof, now).1.Ok?
    ensures var c, st' := proof.chainId, Submit(cfg, st, proof, now).0;
            && st'.chains.Keys == st.chains.Keys
            && st'.chains == st.chains[c := st'.chains[c]]
            && st'.history == st.history + [BlockRecord(
                 c, proof.blockHeight, proof.hashResult, now, st'.chains[c].currentDifficulty,
                 proof.minerAddress, proof.nonce)]
    ensures var s, s' := st.chains[proof.chainId], Submit(cfg, st, proof, now).0.chains[proof.chainId];
            && s'.currentHeight == s.currentHeight + 1
            && s'.lastBlockTime == now
            && s'.totalWork == s.totalWork + proof.difficultyAchieved
            && (s.blocksInPeriod < U64_MAX && s.blocksInPeriod + 1 < cfg.interval ==>
                  && s'.blocksInPeriod == s.blocksInPeriod + 1
                  && s'.periodStartTime == s.periodStartTime
                  && s'.currentDifficulty == s.currentDifficulty)
            && (s.blocksInPeriod < U64_MAX && s.blocksInPeriod + 1 >= cfg.interval ==>
                  s'.blocksInPeriod == 0 && s'.periodStartTime == now)
  {
  }

  /** `create_work_package` hands out the next height of the chain at its difficulty, and the caller's hashes. */
  lemma CreateWorkOutcome(sha: Sha512, st: State, c: u32, blockHash: seq<Byte>, parentHash: seq<Byte>,
                          merkleRoot: seq<Byte>, now: u64)
    ensures var r := CreateWork(sha, st, c, blockHash, parentHash, merkleRoot, now);
            && (c !in st.chains ==> r == Err(InvalidBlock(ChainNotFound)))
            && (c in st.chains ==>
                  var s := st.chains[c];
                  if s.currentDifficulty == 0 || c >= 20
                     || |blockHash| != 64 || |parentHash| != 64 || |merkleRoot| != 64
                  then r == Err(InvalidDifficulty)
                  else
                    var height := (s.currentHeight + 1) % 0x1_0000_0000_0000_0000;
                    r == Ok(WorkPackage(
                           sha(LE(c, 4) + LE(height, 8) + blockHash + LE(now, 8)), c, height, blockHash, parentHash,
                           merkleRoot, now, s.currentDifficulty, WorkTarget(s.currentDifficulty), 1, 0)))
  {
  }

  // ---------------------------------------------------------------- runs

  datatype Event =
    | InitializeChain(chainId: u32, now: u64)
    | SubmitBlock(proof: WorkProof, now: u64)

  function Step(cfg: PoWConfig, st: State, e: Event): State {
    match e
    case InitializeChain(c, now) => Initialize(st, c, now).0
    case SubmitBlock(proof, now) => Submit(cfg, st, proof, now).0
  }

  function Run(cfg: PoWConfig, st: State, es: seq<Event>): State {
    if es == [] then st else Step(cfg, Run(cfg, st, es[..|es| - 1]), es[|es| - 1])
  }

  ghost predicate Accepts(st: State, e: Event, c: u32) {
    e.SubmitBlock? && e.proof.chainId == c && Rejection(st, e.proof) == None
  }

  /** The proofs accepted on chain c along a run, in order. */
  ghost function Accepted(cfg: PoWConfig, st: State, es: seq<Event>, c: u32): seq<WorkProof> {
    if es == [] then []
    else
      var init, last := es[..|es| - 1], es[|es| - 1];
      Accepted(cfg, st, init, c) + if Accepts(Run(cfg, st, init), last, c) then [last.proof] else []
  }

  function SumWork(ps: seq<WorkProof>): nat {
    if ps == [] then 0 else SumWork(ps[..|ps| - 1]) + ps[|ps| - 1].difficultyAchieved
  }

  // ---------------------------------------------------------------- what every run keeps

  /** The configured bounds admit the fixed difficulty every chain starts from. */
  predicate AdmitsStart(cfg: PoWConfig) {
    cfg.minDifficulty <= INITIAL_DIFFICULTY <= cfg.maxDifficulty
  }

  /** The difficulty in force after the first i recorded blocks of a chain. */
  function DifficultyAfter(recs: seq<BlockRecord>, i: nat): u64
    requires i <= |recs|
  {
    if i == 0 then INITIAL_DIFFICULTY else recs[i - 1].difficulty
  }

  /** The difficulty may move at this height, and only as both validators allow. */
  ghost predicate GoodStep(cfg: PoWConfig, previous: u64, next: u64, height: nat) {
    && (cfg.interval > 0 && next != previous ==> ShouldAdjust(cfg, height))
    && (AdmitsStart(cfg) ==> ValidateDifficulty(cfg, next).Ok? && ValidateAdjustment(previous, next).Ok?)
  }

  ghost predicate GoodHistory(cfg: PoWConfig, recs: seq<BlockRecord>) {
    recs != [] ==>
      var init := recs[..|recs| - 1];
      && GoodHistory(cfg, init)
      && GoodStep(cfg, DifficultyAfter(init, |init|), recs[|init|].difficulty, |recs|)
  }

  lemma {:induction false} GoodHistoryAt(cfg: PoWConfig, recs: seq<BlockRecord>, i: nat)
    requires GoodHistory(cfg, recs) && i < |recs|
    ensures GoodStep(cfg, DifficultyAfter(recs, i), recs[i].difficulty, i + 1)
    decreases |recs|
  {
    var init := recs[..|recs| - 1];
    assert DifficultyAfter(init, i) == DifficultyAfter(recs, i);
    if i < |init| {
      GoodHistoryAt(cfg, init, i);
    }
  }

  ghost predicate ChainOk(cfg: PoWConfig, s: ChainState, recs: seq<BlockRecord>) {
    && s.currentHeight == |recs|
    && (forall i :: 0 <= i < |recs| ==> recs[i].height == i + 1)
    && (cfg.interval > 0 ==> s.blocksInPeriod == s.currentHeight % cfg.interval)
    && s.currentDifficulty == DifficultyAfter(recs, |recs|)
    && (AdmitsStart(cfg) ==> ValidateDifficulty(cfg, s.currentDifficulty).Ok?)
    && GoodHistory(cfg, recs)
  }

  ghost predicate Inv(cfg: PoWConfig, st: State) {
    && (forall c :: c in st.chains ==> ChainOk(cfg, st.chains[c], Records(st.history, c)))
    && (forall c: u32 :: c !in st.chains ==> Records(st.history, c) == [])
  }

  lemma RecordsSnoc(history: seq<BlockRecord>, r: BlockRecord, c: u32)
    ensures Records(history + [r], c) == Records(history, c) + if r.chainId == c then [r] else []
  {
    assert (history + [r])[..|history|] == history;
  }

  /** A step on one chain changes neither the state nor the records of any other. */
  lemma StepIsLocal(cfg: PoWConfig, st: State, e: Event, c: u32)
    requires c != if e.SubmitBlock? then e.proof.chainId else e.chainId
    ensures var st' := Step(cfg, st, e);
            && (c in st'.chains <==> c in st.chains)
            && (c in st.chains ==> st'.chains[c] == st.chains[c])
            && Records(st'.history, c) == Records(st.history, c)
  {
    if e.SubmitBlock? && Rejection(st, e.proof) == None {
      var s := AcceptBlock(cfg, st.chains[e.proof.chainId], e.proof, e.now);
      RecordsSnoc(st.history, RecordOf(e.proof, s.currentDifficulty, e.now), c);
    }
  }

  lemma PeriodCount(height: nat, interval: nat)
    requires interval > 0
    ensures var b := height % interval + 1;
            && (b >= interval <==> (height + 1) % interval == 0)
            && (b < interval ==> (height + 1) % interval == b)
  {
    Arithmetic.DivMod(height, interval);
    var q, b := height / interval, height % interval + 1;
    if b < interval {
      Arithmetic.DivUnique(height + 1, interval, q, b);
    } else {
      Arithmetic.Distribute(q, 1, interval);
      Arithmetic.DivUnique(height + 1, interval, q + 1, 0);
    }
  }

  lemma AcceptIsGoodStep(cfg: PoWConfig, s: ChainState, proof: WorkProof, now: u64)
    requires cfg.interval > 0 ==> s.blocksInPeriod == s.currentHeight % cfg.interval
    requires AdmitsStart(cfg) ==> ValidateDifficulty(cfg, s.currentDifficulty).Ok?
    ensures var s' := AcceptBlock(cfg, s, proof, now);
            && GoodStep(cfg, s.currentDifficulty, s'.currentDifficulty, s.currentHeight + 1)
            && (cfg.interval > 0 ==> s'.blocksInPeriod == (s.currentHeight + 1) % cfg.interval)
  {
    if cfg.interval > 0 {
      PeriodCount(s.currentHeight, cfg.interval);
    }
    if AdmitsStart(cfg) {
      AdjustmentIsValid(cfg, s.currentDifficulty, Increment(s.blocksInPeriod), PeriodMs(now, s.periodStartTime));
      assert ValidateAdjustment(s.currentDifficulty, s.currentDifficulty).Ok?;
    }
  }

  lemma AcceptKeepsChain(cfg: PoWConfig, s: ChainState, recs: seq<BlockRecord>, proof: WorkProof, now: u64)
    requires ChainOk(cfg, s, recs) && proof.blockHeight == s.currentHeight + 1
    ensures var s' := AcceptBlock(cfg, s, proof, now);
            ChainOk(cfg, s', recs + [RecordOf(proof, s'.currentDifficulty, now)])
  {
    var s' := AcceptBlock(cfg, s, proof, now);
    AcceptIsGoodStep(cfg, s, proof, now);
    AppendRecord(cfg, s, s', recs, RecordOf(proof, s'.currentDifficulty, now));
  }

  lemma AppendRecord(cfg: PoWConfig, s: ChainState, s': ChainState, recs: seq<BlockRecord>, r: BlockRecord)
    requires ChainOk(cfg, s, recs)
    requires s'.currentHeight == s.currentHeight + 1 == r.height && s'.currentDifficulty == r.difficulty
    requires cfg.interval > 0 ==> s'.blocksInPeriod == s'.currentHeight % cfg.interval
    requires GoodStep(cfg, s.currentDifficulty, r.difficulty, r.height)
    ensures ChainOk(cfg, s', recs + [r])
  {
    assert (recs + [r])[..|recs|] == recs;
  }

  lemma StepKeepsInv(cfg: PoWConfig, st: State, e: Event)
    requires Inv(cfg, st)
    ensures Inv(cfg, Step(cfg, st, e))
  {
    var st' := Step(cfg, st, e);
    var touched := if e.SubmitBlock? then e.proof.chainId else e.chainId;
    if e.SubmitBlock? && Rejection(st, e.proof) == None {
      var s := AcceptBlock(cfg, st.chains[touched], e.proof, e.now);
      RecordsSnoc(st.history, RecordOf(e.proof, s.currentDifficulty, e.now), touched);
      AcceptKeepsChain(cfg, st.chains[touched], Records(st.history, touched), e.proof, e.now);
    }
    forall c: u32
      ensures c in st'.chains ==> ChainOk(cfg, st'.chains[c], Records(st'.history, c))
      ensures c !in st'.chains ==> Records(st'.history, c) == []
    {
      if c != touched {
        StepIsLocal(cfg, st, e, c);
      }
    }
  }

  /**
   In every reachable state, for every chain and under any configuration: heights
   1..n in order and the current difficulty recorded last; with a positive
   interval the period counter, and no change outside an adjustment height; with
   bounds that admit the start, no difficulty or change a validator would refuse.
   */
  lemma {:induction false} RunKeepsInv(cfg: PoWConfig, es: seq<Event>)
    ensures Inv(cfg, Run(cfg, EMPTY, es))
  {
    if es != [] {
      RunKeepsInv(cfg, es[..|es| - 1]);
      StepKeepsInv(cfg, Run(cfg, EMPTY, es[..|es| - 1]), es[|es| - 1]);
    }
  }

  /** Block i of a chain's history against the one before it. */
  ghost predicate NeighboursOk(cfg: PoWConfig, recs: seq<BlockRecord>, i: nat)
    requires i < |recs|
  {
    var previous, next := DifficultyAfter(recs, i), recs[i].difficulty;
    && recs[i].height == i + 1
    && (cfg.interval > 0 && next != previous ==> recs[i].height % cfg.interval == 0)
    && (AdmitsStart(cfg) ==>
          cfg.minDifficulty <= next <= cfg.maxDifficulty && previous / 4 <= next <= 4 * previous)
  }

  /** The same for each recorded block: any two neighbours in a chain's history pass both validators. */
  lemma RecordedDifficulties(cfg: PoWConfig, es: seq<Event>, c: u32, i: nat)
    requires i < |Records(Run(cfg, EMPTY, es).history, c)|
    ensures NeighboursOk(cfg, Records(Run(cfg, EMPTY, es).history, c), i)
  {
    RunKeepsInv(cfg, es);
    var st := Run(cfg, EMPTY, es);
    if c in st.chains {
      NeighboursOfChain(cfg, st.chains[c], Records(st.history, c), i);
    }
  }

  lemma NeighboursOfChain(cfg: PoWConfig, s: ChainState, recs: seq<BlockRecord>, i: nat)
    requires ChainOk(cfg, s, recs) && i < |recs|
    ensures NeighboursOk(cfg, recs, i)
  {
    GoodHistoryAt(cfg, recs, i);
  }

  // ---------------------------------------------------------------- when the configured bounds are kept

  ghost predicate WithinBounds(cfg: PoWConfig, recs: seq<BlockRecord>) {
    forall i :: 0 <= i < |recs| ==> cfg.minDifficulty <= recs[i].difficulty <= cfg.maxDifficulty
  }

  ghost predicate EveryRunWithinBounds(cfg: PoWConfig) {
    forall es: seq<Event>, c: u32 :: WithinBounds(cfg, Records(Run(cfg, EMPTY, es).history, c))
  }

  /** A block any chain takes at height 1, as every byte string is at least the empty one. */
  const FIRST_PROOF: WorkProof := WorkProof([], 0, 1, 0, 0, [], [], 0, [], 0)

  /** A first block in the second of initialisation records the fixed start, whatever the configuration. */
  lemma FirstBlockRecordsStart(cfg: PoWConfig)
    ensures var es := [InitializeChain(0, 0), SubmitBlock(FIRST_PROOF, 0)];
            Records(Run(cfg, EMPTY, es).history, 0) == [RecordOf(FIRST_PROOF, INITIAL_DIFFICULTY, 0)]
  {
    var es := [InitializeChain(0, 0), SubmitBlock(FIRST_PROOF, 0)];
    assert es[..1] == [InitializeChain(0, 0)] && es[..1][..0] == [];
    var s := ChainState(0, INITIAL_DIFFICULTY, 0, 0, 0, 0);
    assert Run(cfg, EMPTY, es[..1]) == State(map[0 := s], []) by {
      assert Run(cfg, EMPTY, []) == EMPTY;
    }
    assert PeriodMs(0, 0) == 0;
    RecordsSnoc([], RecordOf(FIRST_PROOF, INITIAL_DIFFICULTY, 0), 0);
  }

  /**
   Every recorded difficulty of every chain in every run lies within the
   configured bounds if and only if the bounds admit 1,000,000.
   */
  lemma BoundsKeptIff(cfg: PoWConfig)
    ensures EveryRunWithinBounds(cfg) <==> AdmitsStart(cfg)
  {
    if AdmitsStart(cfg) {
      forall es: seq<Event>, c: u32
        ensures WithinBounds(cfg, Records(Run(cfg, EMPTY, es).history, c))
      {
        var recs := Records(Run(cfg, EMPTY, es).history, c);
        forall i | 0 <= i < |recs|
          ensures cfg.minDifficulty <= recs[i].difficulty <= cfg.maxDifficulty
        {
          RecordedDifficulties(cfg, es, c, i);
        }
      }
    } else {
      FirstBlockRecordsStart(cfg);
      var es := [InitializeChain(0, 0), SubmitBlock(FIRST_PROOF, 0)];
      var recs := Records(Run(cfg, EMPTY, es).history, 0);
      assert recs[0].difficulty == INITIAL_DIFFICULTY;
    }
  }

  // ---------------------------------------------------------------- the difficulty schedule

  /** When a chain reached height i: the time of its block i, or of its initialisation. */
  function TimeOf(recs: seq<BlockRecord>, i: nat, start: u64): u64
    requires i <= |recs|
  {
    if i == 0 then start else recs[i - 1].timestamp
  }

  /** How many blocks a period has: an interval of zero adjusts with every block, as one does. */
  function Period(cfg: PoWConfig): (p: nat)
    ensures p > 0
  {
    Max(1, cfg.interval)
  }

  /** The difficulty recorded with the block that follows `recs` at time `now`, from the recorded times alone. */
  function ScheduledDifficulty(cfg: PoWConfig, recs: seq<BlockRecord>, now: u64, start: u64): u64 {
    var height, previous, period := |recs| + 1, DifficultyAfter(recs, |recs|), Period(cfg);
    if height % period == 0 && height >= period then
      AdjustKadenaStyle(cfg, previous, period, PeriodMs(now, TimeOf(recs, height - period, start)))
    else previous
  }

  /** The difficulty of record i is the one scheduled by the records before it. */
  ghost predicate OnScheduleAt(cfg: PoWConfig, recs: seq<BlockRecord>, start: u64, i: nat)
    requires i < |recs|
  {
    recs[i].difficulty == ScheduledDifficulty(cfg, recs[..i], recs[i].timestamp, start)
  }

  ghost predicate OnSchedule(cfg: PoWConfig, recs: seq<BlockRecord>, start: u64) {
    forall i :: 0 <= i < |recs| ==> OnScheduleAt(cfg, recs, start, i)
  }

  lemma OnScheduleSnoc(cfg: PoWConfig, recs: seq<BlockRecord>, r: BlockRecord, start: u64)
    requires OnSchedule(cfg, recs, start) && r.difficulty == ScheduledDifficulty(cfg, recs, r.timestamp, start)
    ensures OnSchedule(cfg, recs + [r], start)
  {
    var all := recs + [r];
    forall i | 0 <= i < |all|
      ensures OnScheduleAt(cfg, all, start, i)
    {
      if i < |recs| {
        assert OnScheduleAt(cfg, recs, start, i) && all[..i] == recs[..i];
      } else {
        assert all[..i] == recs;
      }
    }
  }

  ghost predicate TimesOk(cfg: PoWConfig, s: ChainState, recs: seq<BlockRecord>, start: u64) {
    && s.currentHeight == |recs|
    && s.blocksInPeriod == s.currentHeight % Period(cfg)
    && s.currentDifficulty == DifficultyAfter(recs, |recs|)
    && s.lastBlockTime == TimeOf(recs, |recs|, start)
    && s.periodStartTime == TimeOf(recs, |recs| - s.blocksInPeriod, start)
    && OnSchedule(cfg, recs, start)
  }

  lemma PeriodIsOneInterval(height: nat, interval: nat)
    requires interval > 0
    ensures height % interval <= height
    ensures (height + 1) % interval == 0 ==> height % interval + 1 == interval && height + 1 >= interval
  {
    Arithmetic.DivMod(height, interval);
    PeriodCount(height, interval);
    Arithmetic.MulMono(0, height / interval, interval);
  }

  lemma AcceptKeepsTimes(cfg: PoWConfig, s: ChainState, recs: seq<BlockRecord>, start: u64, proof: WorkProof, now: u64)
    requires TimesOk(cfg, s, recs, start)
    ensures var s' := AcceptBlock(cfg, s, proof, now);
            TimesOk(cfg, s', recs + [RecordOf(proof, s'.currentDifficulty, now)], start)
  {
    var s' := AcceptBlock(cfg, s, proof, now);
    var all := recs + [RecordOf(proof, s'.currentDifficulty, now)];
    PeriodCount(s.currentHeight, Period(cfg));
    PeriodIsOneInterval(s.currentHeight, Period(cfg));
    OnScheduleSnoc(cfg, recs, all[|recs|], start);
    EarlierTimes(recs, all[|recs|], |recs| - s.blocksInPeriod, start);
  }

  lemma EarlierTimes(recs: seq<BlockRecord>, r: BlockRecord, i: nat, start: u64)
    requires i <= |recs|
    ensures TimeOf(recs + [r], i, start) == TimeOf(recs, i, start)
  {
  }

  /** The time at which a chain was initialised along a run. */
  function StartTime(cfg: PoWConfig, es: seq<Event>, c: u32): u64
    requires c in Run(cfg, EMPTY, es).chains
  {
    var init, last := es[..|es| - 1], es[|es| - 1];
    if c in Run(cfg, EMPTY, init).chains then StartTime(cfg, init, c)
    else match last case InitializeChain(_, now) => now case SubmitBlock(_, _) => 0
  }

  lemma {:induction false} RunKeepsTimes(cfg: PoWConfig, es: seq<Event>, c: u32)
    requires c in Run(cfg, EMPTY, es).chains
    ensures var st := Run(cfg, EMPTY, es);
            TimesOk(cfg, st.chains[c], Records(st.history, c), StartTime(cfg, es, c))
    decreases |es|
  {
    var init, last := es[..|es| - 1], es[|es| - 1];
    var st := Run(cfg, EMPTY, init);
    var touched := if last.SubmitBlock? then last.proof.chainId else last.chainId;
    if c in st.chains {
      RunKeepsTimes(cfg, init, c);
      if c != touched {
        StepIsLocal(cfg, st, last, c);
      } else if last.SubmitBlock? && Rejection(st, last.proof) == None {
        var s := AcceptBlock(cfg, st.chains[c], last.proof, last.now);
        RecordsSnoc(st.history, RecordOf(last.proof, s.currentDifficulty, last.now), c);
        AcceptKeepsTimes(cfg, st.chains[c], Records(st.history, c), StartTime(cfg, init, c), last.proof, last.now);
      }
    } else {
      RunLog(cfg, init, c);
    }
  }

  /** Record i was taken against the target of the difficulty in force before it. */
  ghost predicate MetTarget(recs: seq<BlockRecord>, i: nat)
    requires i < |recs|
  {
    var difficulty := DifficultyAfter(recs, i);
    && difficulty > 0
    && SliceLe(recs[i].hash, WorkTarget(difficulty))
    && (|recs[i].hash| == 64 ==> BE(recs[i].hash) <= BE(WorkTarget(difficulty)))
  }

  ghost predicate AllMetTarget(recs: seq<BlockRecord>) {
    forall i :: 0 <= i < |recs| ==> MetTarget(recs, i)
  }

  lemma MetTargetSnoc(recs: seq<BlockRecord>, r: BlockRecord, difficulty: u64)
    requires AllMetTarget(recs) && difficulty == DifficultyAfter(recs, |recs|) && difficulty > 0
    requires SliceLe(r.hash, WorkTarget(difficulty))
    requires |r.hash| == 64 ==> BE(r.hash) <= BE(WorkTarget(difficulty))
    ensures AllMetTarget(recs + [r])
  {
    forall i | 0 <= i < |recs| + 1
      ensures MetTarget(recs + [r], i)
    {
      assert DifficultyAfter(recs + [r], i) == DifficultyAfter(recs, i);
      assert i < |recs| ==> MetTarget(recs, i);
    }
  }

  lemma AcceptedMeetsTarget(cfg: PoWConfig, st: State, proof: WorkProof, now: u64)
    requires Inv(cfg, st) && Submit(cfg, st, proof, now).1.Ok?
    requires AllMetTarget(Records(st.history, proof.chainId))
    ensures AllMetTarget(Records(Submit(cfg, st, proof, now).0.history, proof.chainId))
  {
    var c, recs := proof.chainId, Records(st.history, proof.chainId);
    SubmitOutcome(cfg, st, proof, now);
    SubmitEffect(cfg, st, proof, now);
    var r := Submit(cfg, st, proof, now).0.history[|st.history|];
    RecordsSnoc(st.history, r, c);
    assert ChainOk(cfg, st.chains[c], recs);
    MetTargetSnoc(recs, r, st.chains[c].currentDifficulty);
  }

  /** Along every run each recorded hash meets the target of the difficulty that was in force when it was submitted. */
  lemma {:induction false} RecordedHashesMeetTarget(cfg: PoWConfig, es: seq<Event>, c: u32)
    ensures AllMetTarget(Records(Run(cfg, EMPTY, es).history, c))
  {
    if es != [] {
      var init, last := es[..|es| - 1], es[|es| - 1];
      var st := Run(cfg, EMPTY, init);
      RecordedHashesMeetTarget(cfg, init, c);
      RunKeepsInv(cfg, init);
      if c != (if last.SubmitBlock? then last.proof.chainId else last.chainId) {
        StepIsLocal(cfg, st, last, c);
      } else if last.SubmitBlock? && Submit(cfg, st, last.proof, last.now).1.Ok? {
        AcceptedMeetsTarget(cfg, st, last.proof, last.now);
      }
    }
  }

  /** The milliseconds between two clock readings in seconds, as u64 words. */
  function Milliseconds(from: u64, to: u64): nat {
    (to + 0x1_0000_0000_0000_0000 - from) % 0x1_0000_0000_0000_0000 * 1000 % 0x1_0000_0000_0000_0000
  }

  /**
   Record i in terms of the records before it: outside the end of a period, or when
   the period took no time, the difficulty is the one before; otherwise it is the
   bounded ratio of the target and the actual time of exactly that period.
   */
  ghost predicate DifficultyIsDue(cfg: PoWConfig, recs: seq<BlockRecord>, start: u64, i: nat)
    requires i < |recs|
  {
    var period := if cfg.interval == 0 then 1 else cfg.interval;
    var previous, next := DifficultyAfter(recs, i), recs[i].difficulty;
    if (i + 1) % period != 0 || i + 1 < period then next == previous
    else
      var ms := Milliseconds(if i + 1 == period then start else recs[i - period].timestamp, recs[i].timestamp);
      if ms == 0 then next == previous
      else RetargetsTo(previous, period * cfg.targetBlockTimeMs % 0x1_0000_0000_0000_0000, ms,
                       cfg.minDifficulty, cfg.maxDifficulty, next)
  }

  lemma ScheduledIsDue(cfg: PoWConfig, recs: seq<BlockRecord>, start: u64, i: nat)
    requires i < |recs| && OnScheduleAt(cfg, recs, start, i)
    ensures DifficultyIsDue(cfg, recs, start, i)
  {
    var period := Period(cfg);
    assert DifficultyAfter(recs[..i], i) == DifficultyAfter(recs, i);
    if (i + 1) % period == 0 && i + 1 >= period {
      var from := TimeOf(recs[..i], i + 1 - period, start);
      assert from == if i + 1 == period then start else recs[i - period].timestamp;
      AdjustmentValue(cfg, DifficultyAfter(recs, i), period, PeriodMs(recs[i].timestamp, from));
    }
  }

  /**
   Along every run, under any configuration, the difficulty of each recorded block
   is the one the recorded block times call for: at the end of a period the Kadena
   adjustment over exactly the blocks of that period, and no change in between.
   */
  lemma DifficultyFollowsSchedule(cfg: PoWConfig, es: seq<Event>, c: u32, i: nat)
    requires c in Run(cfg, EMPTY, es).chains && i < |Records(Run(cfg, EMPTY, es).history, c)|
    ensures DifficultyIsDue(cfg, Records(Run(cfg, EMPTY, es).history, c), StartTime(cfg, es, c), i)
  {
    RunKeepsTimes(cfg, es, c);
    ScheduledIsDue(cfg, Records(Run(cfg, EMPTY, es).history, c), StartTime(cfg, es, c), i);
  }

  // ---------------------------------------------------------------- the log of accepted proofs

  /** The records of a chain are exactly its accepted proofs, and its total work is what they achieved. */
  ghost predicate LogMatches(st: State, c: u32, accepted: seq<WorkProof>) {
    var recs := Records(st.history, c);
    && |recs| == |accepted|
    && (forall i :: 0 <= i < |recs| ==>
          (recs[i].chainId, recs[i].height, recs[i].hash, recs[i].minerAddress, recs[i].nonce)
            == (c, accepted[i].blockHeight, accepted[i].hashResult, accepted[i].minerAddress, accepted[i].nonce))
    && (c in st.chains ==> st.chains[c].totalWork == SumWork(accepted))
    && (c !in st.chains ==> accepted == [])
  }

  lemma StepKeepsLog(cfg: PoWConfig, st: State, e: Event, c: u32, accepted: seq<WorkProof>)
    requires LogMatches(st, c, accepted)
    ensures LogMatches(Step(cfg, st, e), c, accepted + if Accepts(st, e, c) then [e.proof] else [])
  {
    if c != (if e.SubmitBlock? then e.proof.chainId else e.chainId) {
      StepIsLocal(cfg, st, e, c);
      assert accepted + [] == accepted;
    } else if Accepts(st, e, c) {
      var s := AcceptBlock(cfg, st.chains[c], e.proof, e.now);
      RecordsSnoc(st.history, RecordOf(e.proof, s.currentDifficulty, e.now), c);
      assert (accepted + [e.proof])[..|accepted|] == accepted;
    } else {
      assert accepted + [] == accepted;
    }
  }

  /** Along every run, whatever the configuration and the clock. */
  lemma {:induction false} RunLog(cfg: PoWConfig, es: seq<Event>, c: u32)
    ensures LogMatches(Run(cfg, EMPTY, es), c, Accepted(cfg, EMPTY, es, c))
  {
    if es != [] {
      var init := es[..|es| - 1];
      RunLog(cfg, init, c);
      StepKeepsLog(cfg, Run(cfg, EMPTY, init), es[|es| - 1], c, Accepted(cfg, EMPTY, init, c));
    }
  }

  /** The u128 work counter cannot overflow before the u64 height does. */
  lemma WorkFitsU128(cfg: PoWConfig, es: seq<Event>, c: u32)
    requires c in Run(cfg, EMPTY, es).chains
    requires Run(cfg, EMPTY, es).chains[c].currentHeight < U64_MOD
    ensures Run(cfg, EMPTY, es).chains[c].totalWork < U128_MOD
  {
    RunKeepsInv(cfg, es);
    RunLog(cfg, es, c);
    WorkOfFewBlocks(Accepted(cfg, EMPTY, es, c));
  }

  lemma WorkOfFewBlocks(ps: seq<WorkProof>)
    requires |ps| < U64_MOD
    ensures SumWork(ps) < U128_MOD
  {
    SumWorkBound(ps);
    Arithmetic.MulMono(|ps|, U64_MAX, U64_MAX);
  }

  lemma {:induction false} SumWorkBound(ps: seq<WorkProof>)
    ensures SumWork(ps) <= |ps| * U64_MAX
  {
    if ps != [] {
      SumWorkBound(ps[..|ps| - 1]);
    }
  }

  /** What a caller of `get_block_history` sees of a chain of height h. */
  ghost predicate NewestFirst(result: seq<BlockRecord>, recs: seq<BlockRecord>, c: u32, h: nat, limit: nat) {
    && |recs| == h
    && |result| == Min(limit, h)
    && forall i :: 0 <= i < |result| ==>
         result[i] == recs[h - 1 - i] && result[i].chainId == c && result[i].height == h - i
  }

  /** A history query returns the last min(n, height) records with contiguous descending heights. */
  lemma HistoryQuery(cfg: PoWConfig, es: seq<Event>, c: u32, limit: nat)
    requires c in Run(cfg, EMPTY, es).chains
    ensures var st := Run(cfg, EMPTY, es);
            NewestFirst(BlockHistory(st.history, c, limit), Records(st.history, c), c,
                        st.chains[c].currentHeight, limit)
  {
    RunKeepsInv(cfg, es);
    var st := Run(cfg, EMPTY, es);
    RecordsOwnChain(st.history, c);
    NewestFirstOf(Records(st.history, c), c, limit);
  }

  lemma NewestFirstOf(recs: seq<BlockRecord>, c: u32, limit: nat)
    requires forall i :: 0 <= i < |recs| ==> recs[i].height == i + 1 && recs[i].chainId == c
    ensures NewestFirst(Reverse(recs)[..Min(limit, |recs|)], recs, c, |recs|, limit)
  {
    var result := Reverse(recs)[..Min(limit, |recs|)];
    forall i | 0 <= i < |result|
      ensures result[i] == recs[|recs| - 1 - i] && result[i].chainId == c && result[i].height == |recs| - i
    {
      assert result[i] == Reverse(recs)[i];
    }
  }

  lemma {:induction false} RecordsOwnChain(history: seq<BlockRecord>, c: u32)
    ensures forall i :: 0 <= i < |Records(history, c)| ==> Records(history, c)[i].chainId == c
  {
    if history != [] {
      RecordsOwnChain(history[..|history| - 1], c);
    }
  }

  // ---------------------------------------------------------------- statistics

  ghost function Heights(st: State): map<u32, nat> {
    map c | c in st.chains :: st.chains[c].currentHeight
  }

  lemma StepCountsBlocks(cfg: PoWConfig, st: State, e: Event)
    requires SumMap(Heights(st)) == |st.history|
    ensures SumMap(Heights(Step(cfg, st, e))) == |Step(cfg, st, e).history|
  {
    var st' := Step(cfg, st, e);
    match e {
      case InitializeChain(c, now) =>
        if c < 20 && c !in st.chains {
          assert Heights(st') == Heights(st)[c := 0];
          SumMapInsert(Heights(st), c, 0);
        }
      case SubmitBlock(proof, now) =>
        if Rejection(st, proof) == None {
          var h := st.chains[proof.chainId].currentHeight;
          assert Heights(st') == Heights(st)[proof.chainId := h + 1];
          SumMapUpdate(Heights(st), proof.chainId, h + 1);
        }
    }
  }

  /** What the records of every chain add up to. */
  ghost function Difficulties(st: State): map<u32, nat> {
    map c | c in st.chains :: ChainDifficulty(st.history, c)
  }

  ghost function ChainDifficulty(history: seq<BlockRecord>, c: u32): nat {
    SumDifficulty(Records(history, c))
  }

  lemma RecordMovesChain(history: seq<BlockRecord>, r: BlockRecord, c: u32)
    ensures ChainDifficulty(history + [r], c)
      == ChainDifficulty(history, c) + if c == r.chainId then r.difficulty else 0
  {
    RecordsSnoc(history, r, c);
    if c == r.chainId {
      SumDifficultySnoc(Records(history, c), r);
    } else {
      assert Records(history, c) + [] == Records(history, c);
    }
  }

  lemma SumDifficultySnoc(recs: seq<BlockRecord>, r: BlockRecord)
    ensures SumDifficulty(recs + [r]) == SumDifficulty(recs) + r.difficulty
  {
    assert (recs + [r])[..|recs|] == recs;
  }

  lemma RecordMovesChains(st: State, st': State, r: BlockRecord)
    requires r.chainId in st.chains && st'.chains.Keys == st.chains.Keys && st'.history == st.history + [r]
    ensures SumMap(Difficulties(st')) == SumMap(Difficulties(st)) + r.difficulty
    ensures SumDifficulty(st'.history) == SumDifficulty(st.history) + r.difficulty
  {
    forall c: u32
      ensures ChainDifficulty(st'.history, c)
        == ChainDifficulty(st.history, c) + if c == r.chainId then r.difficulty else 0
    {
      RecordMovesChain(st.history, r, c);
    }
    SumDifficultySnoc(st.history, r);
    OneKeyGrows(Difficulties(st), Difficulties(st'), r.chainId, r.difficulty);
  }

  lemma NewChainSums(st: State, st': State, c: u32)
    requires c !in st.chains && Records(st.history, c) == []
    requires st'.chains.Keys == st.chains.Keys + {c} && st'.history == st.history
    ensures SumMap(Difficulties(st')) == SumMap(Difficulties(st))
  {
    assert Difficulties(st') == Difficulties(st)[c := 0];
    SumMapInsert(Difficulties(st), c, 0);
  }

  lemma StepSumsDifficulty(cfg: PoWConfig, st: State, e: Event)
    requires SumMap(Difficulties(st)) == SumDifficulty(st.history)
    requires e.InitializeChain? && e.chainId !in st.chains ==> Records(st.history, e.chainId) == []
    ensures SumMap(Difficulties(Step(cfg, st, e))) == SumDifficulty(Step(cfg, st, e).history)
  {
    var st' := Step(cfg, st, e);
    match e {
      case InitializeChain(c, now) =>
        if st' != st {
          NewChainSums(st, st', c);
        }
      case SubmitBlock(proof, now) =>
        if st' != st {
          RecordMovesChains(st, st', RecordOf(proof, st'.chains[proof.chainId].currentDifficulty, now));
        }
    }
  }

  lemma {:induction false} DifficultiesAddUp(cfg: PoWConfig, es: seq<Event>)
    ensures SumMap(Difficulties(Run(cfg, EMPTY, es))) == SumDifficulty(Run(cfg, EMPTY, es).history)
  {
    if es == [] {
      assert Difficulties(EMPTY) == map[];
    } else {
      DifficultiesAddUp(cfg, es[..|es| - 1]);
      RunKeepsInv(cfg, es[..|es| - 1]);
      StepSumsDifficulty(cfg, Run(cfg, EMPTY, es[..|es| - 1]), es[|es| - 1]);
    }
  }

  lemma {:induction false} RecordIsOnItsChain(history: seq<BlockRecord>, i: nat)
    requires i < |history|
    ensures history[i] in Records(history, history[i].chainId)
  {
    if i < |history| - 1 {
      RecordIsOnItsChain(history[..|history| - 1], i);
    }
  }

  lemma {:induction false} SumDifficultyBounds(recs: seq<BlockRecord>, lo: nat, hi: nat)
    requires forall i :: 0 <= i < |recs| ==> lo <= recs[i].difficulty <= hi
    ensures |recs| * lo <= SumDifficulty(recs) <= |recs| * hi
  {
    if recs != [] {
      var n := |recs| - 1;
      SumDifficultyBounds(recs[..n], lo, hi);
      Arithmetic.Distribute(n, 1, lo);
      Arithmetic.Distribute(n, 1, hi);
    }
  }

  lemma AverageWithin(work: nat, n: nat, lo: nat, hi: nat)
    requires n > 0 && n * lo <= work <= n * hi
    ensures lo <= Quotient(work, n) <= hi
  {
    var q := Quotient(work, n);
    if q < lo {
      Arithmetic.MulMono(q + 1, lo, n);
    } else if hi < q {
      Arithmetic.MulMono(hi + 1, q, n);
      Arithmetic.Distribute(hi, 1, n);
    }
  }

  /**
   The statistics of every run: the recorded difficulties add up chain by chain,
   and the average difficulty keeps the configured bounds when they admit the start.
   */
  lemma StatsOfRun(cfg: PoWConfig, es: seq<Event>)
    ensures var st := Run(cfg, EMPTY, es);
            && StatsOf(st).totalBlocks == SumMap(Heights(st))
            && StatsOf(st).totalWork == SumMap(Difficulties(st))
            && (st.history != [] && AdmitsStart(cfg) ==>
                  cfg.minDifficulty <= StatsOf(st).averageDifficulty <= cfg.maxDifficulty)
  {
    var st := Run(cfg, EMPTY, es);
    TotalBlocks(cfg, es);
    DifficultiesAddUp(cfg, es);
    if st.history != [] && AdmitsStart(cfg) {
      forall i | 0 <= i < |st.history|
        ensures cfg.minDifficulty <= st.history[i].difficulty <= cfg.maxDifficulty
      {
        RecordInBounds(cfg, es, i);
      }
      SumDifficultyBounds(st.history, cfg.minDifficulty, cfg.maxDifficulty);
      AverageWithin(SumDifficulty(st.history), |st.history|, cfg.minDifficulty, cfg.maxDifficulty);
    }
  }

  /** The statistics of a state: the chains, and the average rounded down. */
  lemma StatsAre(st: State)
    ensures StatsOf(st).activeChains == |st.chains.Keys| && StatsOf(st).totalBlocks == |st.history|
    ensures st.history == [] ==> StatsOf(st).averageDifficulty == 0
    ensures st.history != [] ==>
      var average, blocks := StatsOf(st).averageDifficulty, |st.history|;
      average * blocks <= StatsOf(st).totalWork < (average + 1) * blocks
  {
  }

  lemma RecordInBounds(cfg: PoWConfig, es: seq<Event>, i: nat)
    requires AdmitsStart(cfg) && i < |Run(cfg, EMPTY, es).history|
    ensures cfg.minDifficulty <= Run(cfg, EMPTY, es).history[i].difficulty <= cfg.maxDifficulty
  {
    var st := Run(cfg, EMPTY, es);
    var c := st.history[i].chainId;
    RecordIsOnItsChain(st.history, i);
    var j :| 0 <= j < |Records(st.history, c)| && Records(st.history, c)[j] == st.history[i];
    RecordedDifficulties(cfg, es, c, j);
  }

  /** The `total_blocks` statistic, the length of the shared history, is the sum of all chain heights. */
  lemma {:induction false} TotalBlocks(cfg: PoWConfig, es: seq<Event>)
    ensures SumMap(Heights(Run(cfg, EMPTY, es))) == |Run(cfg, EMPTY, es).history|
  {
    if es == [] {
      assert Heights(EMPTY) == map[];
    } else {
      TotalBlocks(cfg, es[..|es| - 1]);
      StepCountsBlocks(cfg, Run(cfg, EMPTY, es[..|es| - 1]), es[|es| - 1]);
    }
  }
}
