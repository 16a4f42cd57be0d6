/** Miner reward accounts and payouts (src/reward_distribution.rs), with saturating u128 arithmetic. */
module Rewards {

  import Arithmetic
  import opened Words
  import opened Outcomes
  import opened Sums
  import opened Emission

  datatype MinerRewardAccount = MinerRewardAccount(
    totalRewards: u128,
    pendingRewards: u128,
    paidRewards: u128,
    blocksFound: u64,
    lastRewardTime: u64)

  datatype BlockRewardRecord = BlockRewardRecord(
    blockHeight: u64,
    blockHash: string,
    minerAddress: string,
    baseReward: u128,
    transactionFees: u128,
    totalReward: u128,
    timestamp: u64)

  datatype RewardError = AccountNotFound | InsufficientBalance | InsufficientPending

  datatype State = State(
    accounts: map<string, MinerRewardAccount>,
    history: seq<BlockRewardRecord>,
    totalDistributed: u128)

  const EMPTY: State := State(map[], [], 0)

  // ---------------------------------------------------------------- steps on values

  function NewAccount(now: u64): MinerRewardAccount {
    MinerRewardAccount(0, 0, 0, 0, now)
  }

  function AddReward(acc: MinerRewardAccount, amount: u128, now: u64): MinerRewardAccount {
    MinerRewardAccount(SatAdd128(acc.totalRewards, amount), SatAdd128(acc.pendingRewards, amount), acc.paidRewards,
                       if acc.blocksFound == U64_MAX then U64_MAX else acc.blocksFound + 1, now)
  }

  /** `balance`: total - paid, saturating at zero. */
  function Balance(acc: MinerRewardAccount): u128 {
    if acc.totalRewards < acc.paidRewards then 0 else acc.totalRewards - acc.paidRewards
  }

  function MarkPaid(acc: MinerRewardAccount, amount: u128): Result<MinerRewardAccount, RewardError> {
    if acc.pendingRewards < amount then Err(InsufficientPending)
    else Ok(acc.(pendingRewards := acc.pendingRewards - amount, paidRewards := SatAdd128(acc.paidRewards, amount)))
  }

  /** What `BlockRewardRecord::new` makes of a block. */
  function MakeRecord(base: u128, interval: u64, height: u64, hash: string, miner: string, fees: u128, now: u64)
    : BlockRewardRecord
    requires interval > 0
  {
    var reward := BlockReward(base, interval, height);
    BlockRewardRecord(height, hash, miner, reward, fees, SatAdd128(reward, fees), now)
  }

  /** `record_block_reward`, once the record is made. */
  function RecordReward(st: State, record: BlockRewardRecord): State {
    var m := record.minerAddress;
    var acc := if m in st.accounts then st.accounts[m] else NewAccount(record.timestamp);
    st.(accounts := st.accounts[m := AddReward(acc, record.totalReward, record.timestamp)],
        history := st.history + [record])
  }

  /** `process_payout` */
  function ProcessPayout(st: State, miner: string, amount: u128): (State, Result<(), RewardError>) {
    if miner !in st.accounts then (st, Err(AccountNotFound))
    else if Balance(st.accounts[miner]) < amount then (st, Err(InsufficientBalance))
    else
      match MarkPaid(st.accounts[miner], amount)
      case Err(error) => (st, Err(error))
      case Ok(acc) =>
        (st.(accounts := st.accounts[miner := acc], totalDistributed := SatAdd128(st.totalDistributed, amount)), Ok(()))
  }

  // ---------------------------------------------------------------- what the calls answer and change

  /** The base reward of a height: halved once an interval, rounded down, and nothing after 64 halvings. */
  function HalvedReward(base: u128, interval: u64, height: u64): nat
    requires interval > 0
  {
    if height / interval >= 64 then 0 else Shr(base, height / interval)
  }

  lemma HalvedIs(base: u128, interval: u64, height: u64)
    requires interval > 0
    ensures var r, k := HalvedReward(base, interval, height), height / interval;
            if k >= 64 then r == 0 else r * Pow2(k) <= base < (r + 1) * Pow2(k)
  {
    var p := Pow2(height / interval);
    Arithmetic.DivMod(base, p);
    Arithmetic.Distribute(base / p, 1, p);
  }

  /** A record holds the call's own arguments, the halved base reward, and their sum cut at the u128 maximum. */
  lemma RecordFields(base: u128, interval: u64, height: u64, hash: string, miner: string, fees: u128, now: u64)
    requires interval > 0
    ensures var reward: nat := HalvedReward(base, interval, height);
            MakeRecord(base, interval, height, hash, miner, fees, now)
              == BlockRewardRecord(height, hash, miner, reward, fees, CutSum(reward, fees), now)
    ensures var r, k := MakeRecord(base, interval, height, hash, miner, fees, now).baseReward, height / interval;
            if k >= 64 then r == 0 else r * Pow2(k) <= base < (r + 1) * Pow2(k)
  {
    HalvedIs(base, interval, height);
  }

  /** a + b, but never above 2^128 - 1. */
  function CutSum(a: nat, b: nat): nat {
    if a + b > 0xFFFF_FFFF_FFFF_FFFF_FFFF_FFFF_FFFF_FFFF then 0xFFFF_FFFF_FFFF_FFFF_FFFF_FFFF_FFFF_FFFF else a + b
  }

  /** Recording credits the named miner alone, opening an account if there is none, and appends the record. */
  lemma RecordEffect(st: State, r: BlockRewardRecord)
    ensures var st', m := RecordReward(st, r), r.minerAddress;
            var old' := if m in st.accounts then st.accounts[m] else MinerRewardAccount(0, 0, 0, 0, r.timestamp);
            && st'.history == st.history + [r]
            && st'.totalDistributed == st.totalDistributed
            && st'.accounts == st.accounts[m := MinerRewardAccount(
                 CutSum(old'.totalRewards, r.totalReward), CutSum(old'.pendingRewards, r.totalReward),
                 old'.paidRewards, Min(old'.blocksFound + 1, U64_MAX), r.timestamp)]
  {
  }

  /** A payout within the balance and the pending amount moves that amount from pending to paid, and is counted. */
  lemma PayoutEffect(st: State, m: string, amount: u128)
    ensures var (st', r) := ProcessPayout(st, m, amount);
            && (r.Err? ==> st' == st)
            && (m !in st.accounts ==> r == Err(AccountNotFound))
            && (m in st.accounts ==>
                  var acc := st.accounts[m];
                  && (acc.paidRewards + amount > acc.totalRewards && amount > 0 ==> r == Err(InsufficientBalance))
                  && ((acc.paidRewards + amount <= acc.totalRewards || amount == 0) && amount > acc.pendingRewards ==>
                        r == Err(InsufficientPending))
                  && ((acc.paidRewards + amount <= acc.totalRewards || amount == 0) && amount <= acc.pendingRewards ==>
                        && r == Ok(())
                        && st' == State(
                             st.accounts[m := MinerRewardAccount(
                               acc.totalRewards, acc.pendingRewards - amount, CutSum(acc.paidRewards, amount),
                               acc.blocksFound, acc.lastRewardTime)],
                             st.history, CutSum(st.totalDistributed, amount))))
  {
  }

  // ---------------------------------------------------------------- the manager

  class RewardDistributionManager {
    const halvingInterval: u64
    const baseBlockReward: u128
    var accounts: map<string, MinerRewardAccount>
    var rewardHistory: seq<BlockRewardRecord>
    var totalDistributed: u128

    ghost function Model(): State
      reads this
    {
      State(accounts, rewardHistory, totalDistributed)
    }

    constructor (halvingInterval: u64, baseBlockReward: u128)
      ensures this.halvingInterval == halvingInterval && this.baseBlockReward == baseBlockReward && Model() == EMPTY
    {
      this.halvingInterval, this.baseBlockReward := halvingInterval, baseBlockReward;
      accounts, rewardHistory, totalDistributed := map[], [], 0;
    }

    method RecordBlockReward(height: u64, hash: string, miner: string, fees: u128, now: u64)
      returns (record: BlockRewardRecord)
      requires halvingInterval > 0
      modifies this
      ensures var reward := HalvedReward(baseBlockReward, halvingInterval, height);
              record == BlockRewardRecord(height, hash, miner, reward, fees, CutSum(reward, fees), now)
      ensures Model() == RecordReward(old(Model()), record)
    {
      record := MakeRecord(baseBlockReward, halvingInterval, height, hash, miner, fees, now);
      RecordFields(baseBlockReward, halvingInterval, height, hash, miner, fees, now);
      if miner !in accounts {
        accounts := accounts[miner := NewAccount(now)];
      }
      accounts := accounts[miner := AddReward(accounts[miner], record.totalReward, now)];
      rewardHistory := rewardHistory + [record];
    }

    method ProcessPayoutTo(miner: string, amount: u128) returns (r: Result<(), RewardError>)
      modifies this
      ensures (Model(), r) == ProcessPayout(old(Model()), miner, amount)
    {
      if miner !in accounts {
        return Err(AccountNotFound);
      }
      var account := accounts[miner];
      if Balance(account) < amount {
        return Err(InsufficientBalance);
      }
      var paid := MarkPaid(account, amount);
      if paid.Err? {
        return Err(paid.error);
      }
      accounts := accounts[miner := paid.value];
      totalDistributed := SatAdd128(totalDistributed, amount);
      return Ok(());
    }
  }

  // ---------------------------------------------------------------- runs

  datatype Event =
    | Record(height: u64, hash: string, recipient: string, fees: u128, now: u64)
    | Payout(miner: string, amount: u128)

  /** The configuration of a manager. */
  datatype Config = Config(base: u128, interval: u64)

  type Valid = cfg: Config | cfg.interval > 0 witness Config(0, 1)

  function RecordOf(cfg: Valid, ev: Event): BlockRewardRecord
    requires ev.Record?
  {
    MakeRecord(cfg.base, cfg.interval, ev.height, ev.hash, ev.recipient, ev.fees, ev.now)
  }

  function Step(cfg: Valid, st: State, ev: Event): State {
    match ev
    case Record(_, _, _, _, _) => RecordReward(st, RecordOf(cfg, ev))
    case Payout(m, a) => ProcessPayout(st, m, a).0
  }

  function Run(cfg: Valid, evs: seq<Event>): State {
    if evs == [] then EMPTY else Step(cfg, Run(cfg, evs[..|evs| - 1]), evs[|evs| - 1])
  }

  /** What the records of a miner add up to. */
  function Earned(history: seq<BlockRewardRecord>, miner: string): nat {
    if history == [] then 0
    else
      var last := history[|history| - 1];
      Earned(history[..|history| - 1], miner) + if last.minerAddress == miner then last.totalReward else 0
  }

  /** How many records name a miner. */
  function Blocks(history: seq<BlockRewardRecord>, miner: string): nat {
    if history == [] then 0
    else Blocks(history[..|history| - 1], miner) + if history[|history| - 1].minerAddress == miner then 1 else 0
  }

  /** What holds of every account even when its counters have saturated, and what else holds while they have not. */
  ghost predicate AccountOk(acc: MinerRewardAccount, earned: nat, blocks: nat) {
    && acc.blocksFound == Min(blocks, U64_MAX)
    && acc.paidRewards <= acc.totalRewards <= acc.pendingRewards + acc.paidRewards
    && acc.totalRewards == Min(earned, U128_MAX)
    && (earned <= U128_MAX ==> acc.totalRewards == acc.pendingRewards + acc.paidRewards)
  }

  ghost function Paid(st: State): map<string, nat> {
    map m | m in st.accounts :: st.accounts[m].paidRewards
  }

  ghost predicate Inv(st: State) {
    && (forall m :: m in st.accounts ==> AccountOk(st.accounts[m], Earned(st.history, m), Blocks(st.history, m)))
    && (forall m :: m !in st.accounts ==> Earned(st.history, m) == 0 == Blocks(st.history, m))
    && st.totalDistributed == Min(SumMap(Paid(st)), U128_MAX)
  }

  lemma AddRewardOk(acc: MinerRewardAccount, earned: nat, blocks: nat, amount: u128, now: u64)
    requires AccountOk(acc, earned, blocks)
    ensures AccountOk(AddReward(acc, amount, now), earned + amount, blocks + 1)
  {
  }

  /** After the balance check a payout never meets too few pending rewards, and keeps the account in order. */
  lemma MarkPaidAfterCheck(acc: MinerRewardAccount, earned: nat, blocks: nat, amount: u128)
    requires AccountOk(acc, earned, blocks) && Balance(acc) >= amount
    ensures MarkPaid(acc, amount).Ok?
    ensures AccountOk(MarkPaid(acc, amount).value, earned, blocks)
    ensures MarkPaid(acc, amount).value.paidRewards == acc.paidRewards + amount
    ensures Balance(MarkPaid(acc, amount).value) == Balance(acc) - amount
  {
  }

  lemma EarnedSnoc(history: seq<BlockRewardRecord>, r: BlockRewardRecord, m: string)
    ensures Earned(history + [r], m) == Earned(history, m) + if r.minerAddress == m then r.totalReward else 0
    ensures Blocks(history + [r], m) == Blocks(history, m) + if r.minerAddress == m then 1 else 0
  {
    assert (history + [r])[..|history|] == history;
  }

  lemma RecordKeepsAccount(st: State, r: BlockRewardRecord, a: string)
    requires Inv(st)
    ensures var st' := RecordReward(st, r);
            if a in st'.accounts then AccountOk(st'.accounts[a], Earned(st'.history, a), Blocks(st'.history, a))
            else Earned(st'.history, a) == 0 == Blocks(st'.history, a)
  {
    EarnedSnoc(st.history, r, a);
    if a == r.minerAddress {
      var acc := if a in st.accounts then st.accounts[a] else NewAccount(r.timestamp);
      AddRewardOk(acc, Earned(st.history, a), Blocks(st.history, a), r.totalReward, r.timestamp);
    }
  }

  lemma RecordKeepsPaid(st: State, r: BlockRewardRecord)
    ensures SumMap(Paid(RecordReward(st, r))) == SumMap(Paid(st))
  {
    var m := r.minerAddress;
    var paid := At(Paid(st), m);
    assert Paid(RecordReward(st, r)) == Paid(st)[m := paid];
    SumMapSet(Paid(st), m, paid);
  }

  lemma RecordKeepsInv(st: State, r: BlockRewardRecord)
    requires Inv(st)
    ensures Inv(RecordReward(st, r))
  {
    RecordKeepsPaid(st, r);
    forall a: string
      ensures var st' := RecordReward(st, r);
              if a in st'.accounts then AccountOk(st'.accounts[a], Earned(st'.history, a), Blocks(st'.history, a))
              else Earned(st'.history, a) == 0 == Blocks(st'.history, a)
    {
      RecordKeepsAccount(st, r, a);
    }
  }

  lemma PayoutOutcome(st: State, m: string, amount: u128)
    requires Inv(st)
    ensures ProcessPayout(st, m, amount).1 ==
      if m !in st.accounts then Err(AccountNotFound)
      else if Balance(st.accounts[m]) < amount then Err(InsufficientBalance)
      else Ok(())
    ensures ProcessPayout(st, m, amount).1.Ok? ==>
      var st', acc := ProcessPayout(st, m, amount).0, st.accounts[m];
      && acc.paidRewards + amount <= U128_MAX
      && st' == State(st.accounts[m := MarkPaid(acc, amount).value], st.history, SatAdd128(st.totalDistributed, amount))
      && AccountOk(MarkPaid(acc, amount).value, Earned(st.history, m), Blocks(st.history, m))
    ensures ProcessPayout(st, m, amount).1.Err? ==> ProcessPayout(st, m, amount).0 == st
  {
    if m in st.accounts && Balance(st.accounts[m]) >= amount {
      MarkPaidAfterCheck(st.accounts[m], Earned(st.history, m), Blocks(st.history, m), amount);
    }
  }

  lemma PayoutKeepsInv(st: State, m: string, amount: u128)
    requires Inv(st)
    ensures Inv(ProcessPayout(st, m, amount).0)
  {
    PayoutOutcome(st, m, amount);
    if ProcessPayout(st, m, amount).1.Ok? {
      PaidMoves(st, m, amount);
      ReplaceAccount(st, m, MarkPaid(st.accounts[m], amount).value, SatAdd128(st.totalDistributed, amount));
    }
  }

  lemma ReplaceAccount(st: State, m: string, acc: MinerRewardAccount, distributed: u128)
    requires Inv(st) && m in st.accounts && AccountOk(acc, Earned(st.history, m), Blocks(st.history, m))
    requires distributed == Min(SumMap(Paid(State(st.accounts[m := acc], st.history, distributed))), U128_MAX)
    ensures Inv(State(st.accounts[m := acc], st.history, distributed))
  {
  }

  lemma PaidMoves(st: State, m: string, amount: u128)
    requires m in st.accounts && ProcessPayout(st, m, amount).1.Ok?
    requires st.accounts[m].paidRewards + amount <= U128_MAX
    ensures SumMap(Paid(ProcessPayout(st, m, amount).0)) == SumMap(Paid(st)) + amount
  {
    var paid := st.accounts[m].paidRewards + amount;
    assert Paid(ProcessPayout(st, m, amount).0) == Paid(st)[m := paid];
    SumMapUpdate(Paid(st), m, paid);
  }

  /**
   Along every run, even under saturation: paid <= total <= pending + paid; a
   total is the sum of that miner's records, cut at the u128 maximum; the amount
   distributed is the sum of what was paid, cut likewise; and while a miner's
   records fit, total = pending + paid.
   */
  lemma {:induction false} RunKeepsInv(cfg: Valid, evs: seq<Event>)
    ensures Inv(Run(cfg, evs))
  {
    if evs == [] {
      assert Paid(EMPTY) == map[];
    } else {
      var init, last := evs[..|evs| - 1], evs[|evs| - 1];
      RunKeepsInv(cfg, init);
      match last {
        case Record(_, _, _, _, _) => RecordKeepsInv(Run(cfg, init), RecordOf(cfg, last));
        case Payout(m, a) => PayoutKeepsInv(Run(cfg, init), m, a);
      }
    }
  }

  // ---------------------------------------------------------------- what the calls of a miner earn

  /** What the calls that name a miner are worth: base reward and fees of each. */
  function EarnedBy(cfg: Valid, evs: seq<Event>, miner: string): nat {
    if evs == [] then 0
    else
      var last := evs[|evs| - 1];
      EarnedBy(cfg, evs[..|evs| - 1], miner)
      + if last.Record? && last.recipient == miner
        then HalvedReward(cfg.base, cfg.interval, last.height) + last.fees else 0
  }

  /** The recording calls of a run, in order. */
  function Calls(evs: seq<Event>): seq<Event> {
    if evs == [] then []
    else Calls(evs[..|evs| - 1]) + if evs[|evs| - 1].Record? then [evs[|evs| - 1]] else []
  }

  lemma RecordOfCall(cfg: Valid, ev: Event)
    requires ev.Record?
    ensures var reward := HalvedReward(cfg.base, cfg.interval, ev.height);
            RecordOf(cfg, ev)
              == BlockRewardRecord(ev.height, ev.hash, ev.recipient, reward, ev.fees, CutSum(reward, ev.fees), ev.now)
  {
    RecordFields(cfg.base, cfg.interval, ev.height, ev.hash, ev.recipient, ev.fees, ev.now);
  }

  /** Record i of a history is what call i makes. */
  ghost predicate RecordsCall(cfg: Valid, history: seq<BlockRewardRecord>, calls: seq<Event>, i: nat)
    requires i < |history| && i < |calls|
  {
    var call := calls[i];
    call.Record? &&
    var reward := HalvedReward(cfg.base, cfg.interval, call.height);
    history[i] == BlockRewardRecord(call.height, call.hash, call.recipient, reward, call.fees,
                                    CutSum(reward, call.fees), call.now)
  }

  /** Along every run the history holds one record for each recording call, in order, in the call's own words. */
  lemma {:induction false} HistoryIsCalls(cfg: Valid, evs: seq<Event>)
    ensures var history, calls := Run(cfg, evs).history, Calls(evs);
            |history| == |calls| && forall i :: 0 <= i < |history| ==> RecordsCall(cfg, history, calls, i)
  {
    if evs != [] {
      var init, last := evs[..|evs| - 1], evs[|evs| - 1];
      HistoryIsCalls(cfg, init);
      var before, calls := Run(cfg, init).history, Calls(init);
      var history, calls' := Run(cfg, evs).history, Calls(evs);
      if last.Record? {
        RecordOfCall(cfg, last);
        forall i | 0 <= i < |history|
          ensures RecordsCall(cfg, history, calls', i)
        {
          if i < |before| {
            assert RecordsCall(cfg, before, calls, i);
          }
        }
      } else {
        assert history == before && calls' == calls;
      }
    }
  }

  /** Cutting each record and cutting their sum come to the same. */
  lemma {:induction false} EarnedIsCut(cfg: Valid, evs: seq<Event>, m: string)
    returns (records: nat, calls: nat)
    ensures records == Earned(Run(cfg, evs).history, m) && calls == EarnedBy(cfg, evs, m)
    ensures records <= calls && (records == calls || records >= U128_MAX)
  {
    if evs == [] {
      records, calls := 0, 0;
    } else {
      var init, last := evs[..|evs| - 1], evs[|evs| - 1];
      var st := Run(cfg, init);
      records, calls := EarnedIsCut(cfg, init, m);
      if last.Record? {
        RecordOfCall(cfg, last);
        EarnedSnoc(st.history, RecordOf(cfg, last), m);
        if last.recipient == m {
          var reward := HalvedReward(cfg.base, cfg.interval, last.height);
          records, calls := records + CutSum(reward, last.fees), calls + (reward + last.fees);
        }
      }
    }
  }

  /**
   Along every run an account's total is the sum, cut at the u128 maximum, of base
   reward and fees over the calls that name it; without a call it has no account.
   */
  lemma TotalIsEarned(cfg: Valid, evs: seq<Event>, m: string)
    ensures var st := Run(cfg, evs);
            if m in st.accounts then st.accounts[m].totalRewards == CutSum(EarnedBy(cfg, evs, m), 0)
            else EarnedBy(cfg, evs, m) == 0
  {
    RunKeepsInv(cfg, evs);
    var records, calls := EarnedIsCut(cfg, evs, m);
  }

  /** In every reachable state a payout succeeds exactly when the account exists and its calls have earned it. */
  lemma PayoutSucceedsIff(cfg: Valid, evs: seq<Event>, miner: string, amount: u128)
    ensures var st := Run(cfg, evs);
            ProcessPayout(st, miner, amount).1.Ok? <==>
              && miner in st.accounts
              && amount + st.accounts[miner].paidRewards <= CutSum(EarnedBy(cfg, evs, miner), 0)
  {
    RunKeepsInv(cfg, evs);
    PayoutOutcome(Run(cfg, evs), miner, amount);
    TotalIsEarned(cfg, evs, miner);
  }
}
