# silver-pow: a verified model

This project models the proof-of-work crate `silver-pow` in Dafny and proves
properties that span its functions: what "this hash is hard enough" means in
three representations, what every run of the multi-chain consensus engine keeps,
which mined proofs it accepts, what the ledgers conserve, and what the rate
limiter and the mining pools guarantee over whole traces.

`dafny verify dfyconfig.toml` checks everything.

## How the model is built

- Objects that the source updates in place are classes with the same fields.
  Each method is proved equal to a step function on values (`(Model(), r) ==
  Step(old(Model()), ...)`). What a step answers and writes is stated by cases in
  numbers and field by field (the lemmas `...Outcome`, `...Effect`, `...Iff`,
  `...Value`), and invariants and laws are proved about runs of the steps, for all
  event sequences.
- A method that holds its write lock throughout is one atomic step. Clocks,
  UUIDs, node answers and work replaced by other tasks are inputs.
- SHA-512 (FIPS 180-4, section 6.4) is an arbitrary function to 64 bytes.
- `u64`/`u128` arithmetic saturates where the source says so and wraps where it
  does not (the release profile); counters that would need 2^64 events are
  unbounded.
- `(difficulty as f64).log2() as u32` is the integer floor of log2. Ratios of
  `f64` values are exact rationals, and `as u64` takes the floor and saturates.
  Proportional payouts are the integer floor that
  `tests/integration_tests.rs:257-264` asserts.
- Strings are byte strings.

| file | component |
|---|---|
| `Words`, `Arithmetic`, `Encoding`, `Hex`, `Sums`, `Sequences`, `Outcomes` | machine words, byte strings as numbers, sums over maps |
| `Targets`, `WideDivision`, `ShareAgreement` | mask targets, leading zeros, the miner's `U512`, and their agreement |
| `Work`, `BlockValidator` | work packages, proofs, header validation |
| `Retarget`, `Consensus`, `Mining`, `EndToEnd` | difficulty rules, the consensus engine, the mining loop, and the path through all three |
| `OutpointKeys`, `UtxoSet`, `UtxoBalances`, `Transactions`, `Accounts` | the unspent-output set, transaction validation, the account ledger |
| `Emission`, `Rewards`, `PoolPayout` | halving, reward accounts, proportional payout |
| `RateLimiter`, `StratumPool`, `JobIds`, `BlockTimes`, `BlockBytes` | admission control, pool sessions, job identifiers, windowed retargeting, serialisation |

## Where code and promise differ

- `U512::div_u128` squeezes zero limbs of the quotient to the end. With a divisor
  up to 2^64 it is exact for a dividend exactly when the true quotient has no zero
  limb before a non-zero one (`WideDivision.QuotientExactIff`); the only dividend
  in use, 2^512 - 1, is always exact there (`WideDivision.MaxQuotientExact`). A
  wider divisor can push bits out of the remainder; 2^512 - 1 is divided exactly
  if and only if every remainder of 2^(64k) - 1, for k from 1 to 7, fits 64 bits
  (`WideDivision.MaxQuotientExactIff`):
  not by 2^65, but again by 2^128 - 1 (`WideDivision.WideDivisorIsInexact`,
  `WideDivision.WidestDivisorIsExact`).
- The miner divides, the pool masks: the two tests are the same test exactly
  when the difficulty is a power of two (`ShareAgreement.TestsCoincideIff`).
- `WorkPackage::calculate_target_from_difficulty` is documented as "higher
  difficulty = lower target". It clears low-order bytes instead, and the promise
  holds for a pair of difficulties exactly under the condition of
  `Work.WorkTargetAntitoneIff`. At every difficulty but 1 it is looser than the
  block validator's target (`BlockValidator.TargetsCoincideIff`).
- A transaction that passes `validate_with_utxo_set` can be spent exactly when
  it lists no outpoint twice (`Transactions.ValidatedInputsSpendIff`).
- A confirmed transaction costs the ledger exactly its fee if and only if what
  its outputs pay to others, less what overfills their accounts, is what the
  sender is charged for: the u128 sum of all outputs (`Accounts.LossIsFeeIff`).
  That fails when an output pays the sender, and when the sum wraps: two outputs
  of 2^127 are free, and mint 2^128 on an empty ledger
  (`Accounts.WrappedOutputsMint`). What a run of any amounts does to the total is
  `Accounts.RunBooks`.
- Adding one outpoint twice breaks the address index for good: it refines the map
  if and only if no outpoint was added twice (`UtxoSet.RefinesIffAddedOnce`). The
  balances then still add up exactly when every unspent entry was added once
  (`UtxoBalances.BalancesAddUpIff`), and an outpoint is spent twice exactly when
  two spends of it each have an unspent addition before them with nothing on it in
  between (`UtxoSet.SpentTwiceIff`, `UtxoSet.ReaddedIsSpentTwice`).
- The pool sums share difficulties in u64. Whatever a block pays, the payouts stay
  within the reward less the fee if and only if the u64 sums of the paid miners
  stay within the u64 total (`PoolPayout.PayoutsWithinRewardIff`). Two shares of
  2^64 - 1 and 1001 have the total 1000, and of a block of 100,000 the first
  miner is paid 99 * (2^64 - 1) (`PoolPayout.WrappedTotalOverpays`).
- `submit_block` never recomputes the hash a proof claims, nor asks for its length:
  acceptance reads chain, height and the claimed bytes (`EndToEnd.AcceptanceReads`).
  An accepted proof is valid for its header exactly under the condition of
  `EndToEnd.AcceptedIsValidIff`; one that claims an empty hash is accepted and
  never valid (`EndToEnd.EmptyHashIsAccepted`).
- `get_next_halving_height` is the next halving block if and only if that height
  fits u64 (`Emission.NextHalvingIsFirstIff`); `blocks_until_halving` is right
  even where it is not (`Emission.BlocksUntilHalvingIsDistance`).
- Longer periods never give a higher difficulty, except that both retargeting
  schemes skip a period of zero length; the exact condition is
  `Retarget.AdjustAntitoneIff` and `BlockTimes.CalculateAntitoneIff`, and
  `Retarget.ZeroPeriodIsSkipped` and `BlockTimes.ZeroWindowIsSkipped` are inputs
  at which it fails.
- The rate limiter admits at most 2 * max - 1 connections in a half-open second,
  one less than two full windows, and that bound is reached
  (`RateLimiter.AdmissionsPerSecond`, `RateLimiter.BoundIsReached`).
- `ChainState::new` starts every chain at difficulty 1,000,000 whatever
  `initial_difficulty` is configured: the recorded difficulties of every run stay
  within the configured bounds if and only if `min <= 1,000,000 <= max`
  (`Consensus.BoundsKeptIff`); under any other bounds a first block in the
  second of initialisation leaves them (`Consensus.FirstBlockRecordsStart`).
- The CPU miner puts its nonce in hexadecimal where the pool reads a decimal block
  height, so a valid share can be refused as stale, exactly under the condition of
  `StratumPool.MinedShareOutcome` (nonce 5 at height 1000:
  `StratumPool.SmallNonceLooksStale`).

## Model

| member | source | states |
|---|---|---|
| Targets.CalculateTarget | src/block_validator.rs:176-217 | the target is the 64-byte mask with floor(log2 difficulty) leading zero bits; zero difficulty is the only error |
| Targets.PartialMaskBits | src/block_validator.rs:208-214 | the boundary byte (1 << (8 - r)) - 1 bounds exactly the bytes that start with r zero bits |
| Work.ShiftedOnes | src/work.rs:119-123 | 0xFF >> s is that same byte |
| Targets.MaskTargetValue | src/block_validator.rs:202-216 | read big-endian, the mask target for k zero bits is exactly 2^(512-k) - 1 |
| Targets.LeadingZerosIsMagnitude | src/work.rs:232-240 | a byte string starts with k zero bits if and only if its number is below 2^(bits-k) |
| Targets.DifficultyFromHash | src/work.rs:225-248 | wrong length is an error; otherwise 2 to the number of leading zero bits of the whole hash, saturated at 64 zeros |
| Targets.AchievedIs | src/work.rs:232-247 | the achieved difficulty is 2^z for the z with 2^(511-z) <= hash < 2^(512-z), and the u64 maximum for hashes below 2^448 |
| Targets.HardnessAgreement | src/block_validator.rs:144-149 | byte-wise comparison with the mask target, numeric comparison with 2^(512-k), leading-zero count and achieved difficulty are one test |
| Targets.AchievedMeetsOwnTarget | src/work.rs:242-247 | a hash always meets the mask target of the difficulty it achieves, saturation included |
| Targets.MaskTargetAntitone | src/block_validator.rs:171-175 | higher difficulty never has a higher target, and a hash that meets it meets every lower one |
| Words.LexIsNumeric | src/stratum_pool.rs:480-482 | lexicographic comparison of equally long byte strings is numeric comparison |
| Hex.DecodeIff | src/transaction_engine.rs:487 | a text decodes if and only if it is pairs of hexadecimal digits, to one byte a pair |
| Hex.CapitalDigit | src/transaction_engine.rs:487 | capital digits are worth what small ones are |
| WideDivision.FromBytesValue | src/bin/cpu_miner_real.rs:33-55 | the four limbs of a hash denote the same number as its 64 bytes |
| WideDivision.LimbOrderIsNumeric | src/bin/cpu_miner_real.rs:13-19 | the derived limb ordering is numeric order |
| WideDivision.LimbStepExact | src/bin/cpu_miner_real.rs:80-89 | while the two remainders it shifts fit 64 bits, one pass of two half-limb divisions divides remainder * 2^128 + part exactly |
| WideDivision.DivU128 | src/bin/cpu_miner_real.rs:59-108 | zero divisor gives the maximum; when no remainder loses a bit, as for every divisor up to 2^64, the result is the true quotient with its zero limbs squeezed to the end; when the true quotient has no zero limb, as for 2^512 - 1, the result is that quotient if and only if no bit is lost |
| WideDivision.PlaceAppends | src/bin/cpu_miner_real.rs:91-104 | the slot the match selects keeps all non-zero limbs packed in order at the front |
| WideDivision.TrueQuotient | src/bin/cpu_miner_real.rs:79-107 | the true quotient fits four limbs, and a loop that loses no bit returns its squeezed form |
| WideDivision.QuotientIsSqueezed | src/bin/cpu_miner_real.rs:59-108 | for every dividend and every divisor that loses no bit of it the result is the squeezed true quotient |
| WideDivision.QuotientExactIff | src/bin/cpu_miner_real.rs:59-108 | the result is floor(x / d) if and only if no zero limb of the true quotient precedes a non-zero one |
| WideDivision.SmallTopLimbIsInexact | src/bin/cpu_miner_real.rs:91-94 | a dividend whose top limb is below the divisor, though it is not, is divided wrongly |
| WideDivision.MaxQuotientExact | src/bin/cpu_miner_real.rs:300-301 | max().div_u128(d) is floor((2^512 - 1) / d) for every d in 1..=2^64 |
| WideDivision.FullQuotientExactIff | src/bin/cpu_miner_real.rs:59-108 | a dividend whose true quotient has no zero limb is divided exactly if and only if no shifted remainder loses a bit |
| WideDivision.MaxQuotientExactIff | src/bin/cpu_miner_real.rs:59-108 | for every divisor, max().div_u128(d) is floor((2^512 - 1) / d) if and only if each remainder of 2^(64k) - 1, k from 1 to 7, fits the 64 bits it is shifted by |
| WideDivision.LostBitLowersDigit | src/bin/cpu_miner_real.rs:81-88 | a remainder that loses a bit in the shift makes the next half-limb digit smaller than the true one |
| WideDivision.WideDivisorIsInexact | src/bin/cpu_miner_real.rs:81-87 | dividing 2^512 - 1 by 2^65 is inexact, because the remainder of 2^128 - 1 needs 65 bits |
| WideDivision.WidestDivisorIsExact | src/bin/cpu_miner_real.rs:81-87 | dividing it by 2^128 - 1 is exact again |
| ShareAgreement.MinerTest | src/bin/cpu_miner_real.rs:289-304 | the miner's limb test is hash * d < 2^512 on numbers |
| ShareAgreement.PoolTest | src/stratum_pool.rs:458-482 | the pool's byte test is hash * 2^floor(log2 d) < 2^512 on numbers |
| ShareAgreement.MinerShareIsAccepted | src/stratum_pool.rs:432-505 | every hash the miner accepts at d passes the pool's check at every difficulty from 1 to d |
| ShareAgreement.TestsCoincideIff | src/stratum_pool.rs:458-482 | miner and pool agree on all hashes if and only if the difficulty is a power of two |
| ShareAgreement.MaskTargetIsRefused | src/bin/cpu_miner_real.rs:296-304 | at any other difficulty the mask target itself is taken by the pool and refused by the miner |
| Work.CalculateWorkTarget | src/work.rs:91-134 | the byte loop and boundary shift build the target described byte by byte; zero difficulty is the only error |
| Work.TargetForLogGrows | src/work.rs:108-123 | between two bit lengths this target grows, strictly when the lower one is under 57 bits |
| Work.WorkTargetValue | src/work.rs:98-133 | the number a work target denotes: with s = 64 - floor(log2 d), the lowest s / 8 bytes cleared and s % 8 bits taken off the byte above a cleared one |
| Work.WorkTargetAntitoneIff | src/work.rs:88-110 | "higher difficulty = lower target" holds for c <= d if and only if c is 1, c >= 2^57, or both have one bit length |
| Work.VerifyOutcome | src/work.rs:201-223 | verify is the numeric comparison of the claimed hash with the target, and an error unless both have 64 bytes |
| Work.BuildProofOutcome | src/work.rs:468-493 | a proof that builds holds every argument of the builder and the difficulty its hash shows; a hash of another length or an empty address is the error |
| Work.HeaderLayout | src/work.rs:136-147 | the 160 bytes that are hashed, field by field |
| BlockValidator.ValidateProofOfWork | src/block_validator.rs:128-169 | accepted if and only if nonces, chain and height match, the recomputed hash is the claimed one and it has enough leading zeros; each failure has its error |
| BlockValidator.ProofOfWorkIff | src/block_validator.rs:128-168 | what it demands, in numbers: the four matching fields, a positive difficulty, the recomputed hash, and hash * 2^floor(log2 d) < 2^512 |
| BlockValidator.ValidatorLayout | src/block_validator.rs:57-68 | the bytes the validator hashes have the layout of those the miner hashes |
| BlockValidator.MinedProofHoldsIff | src/block_validator.rs:128-169 | a mined proof passes its own header's validation if and only if its achieved difficulty reaches the power of two below the work difficulty |
| BlockValidator.ValidatorIsStricter | src/block_validator.rs:143-149 | a hash that meets the validator's target meets the work package's target |
| BlockValidator.TargetsCoincideIff | src/work.rs:91-134 | the two targets are the same test only at difficulty 1 |
| Retarget.ScaleWithinFour | src/difficulty.rs:108-116 | the clamped ratio moves a difficulty by at most a factor of four; the value itself is AdjustmentValue |
| Retarget.AdjustmentValue | src/difficulty.rs:90-129 | no change over no blocks or in no time; otherwise, with e = blocks * target mod 2^64 and period t: r with r * t <= cur * e < (r + 1) * t strictly between the two ratio bounds, cur / 4 once 4e <= t, 4 * cur once e >= 4t; then cut at 64 bits, raised to the minimum and lowered to the maximum |
| Retarget.OnePercentSlower | src/difficulty.rs:109-119 | a period one percent too long takes 1,000,000 to 990,099 |
| Retarget.AdjustAntitoneIff | src/difficulty.rs:90-129 | of two periods with the same blocks the longer gives no higher difficulty, if and only if the shorter is not skipped for being zero, or the longer does not raise the current difficulty; a condition on the inputs alone |
| Retarget.AdjustmentIsValid | src/difficulty.rs:90-129 | from an allowed difficulty, whatever the period took, the next passes validate_difficulty and the validator's 4x rule |
| Retarget.ValidatorsDecide | src/block_validator.rs:251-275 | both validators in numbers: within the bounds, and previous / 4 <= current <= 4 * previous, with the error for each side |
| Consensus.PoWConsensus.InitializeChain | src/consensus.rs:88-111 | the new state and answer are the initialisation step on the old state |
| Consensus.InitializeOutcome | src/consensus.rs:88-111 | a chain identifier of 20 or more and a chain that exists are refused and change nothing; otherwise the chain starts at height 0 and difficulty 1,000,000 at the clock |
| Consensus.PoWConsensus.SubmitBlock | src/consensus.rs:158-232 | the method is the submission step on the old state; what that step answers and writes is SubmitOutcome and SubmitEffect |
| Consensus.SubmitOutcome | src/consensus.rs:158-178 | Ok(true) if and only if the chain exists, the height is the next one, the difficulty is positive and the claimed hash meets the target of that difficulty, for 64-byte hashes BE(hash) <= BE(target); otherwise the first of these that fails names the error, and nothing changes |
| Consensus.AllOnesRefused | src/consensus.rs:173-178 | a hash of 64 bytes of 0xFF is refused by a fresh chain |
| Consensus.SubmitEffect | src/consensus.rs:179-224 | an accepted block appends one record of the proof's own chain, height, hash, address and nonce, raises the height by one and the total work by difficulty_achieved, and restarts the period exactly at its last block |
| Consensus.RecordedHashesMeetTarget | src/consensus.rs:173-178 | along every run each recorded hash meets the target of the difficulty recorded before it (1,000,000 for the first), for 64-byte hashes BE(hash) <= BE(target) |
| Consensus.CreateWorkOutcome | src/consensus.rs:123-155 | every field of the package from the caller's arguments and the chain state, the SHA-512 work id over chain, height, block hash and time included, and each error |
| Consensus.StepIsLocal | src/consensus.rs:158-162 | a step on one chain leaves every other chain's state and records unchanged |
| Consensus.RunKeepsInv | src/consensus.rs:158-232 | in every reachable state, under any configuration: heights exactly 1..n in order and the current difficulty recorded last; with a positive interval blocks_in_period = height mod interval and no change elsewhere; with bounds that admit the start every difficulty and change passes both validators |
| Consensus.RecordedDifficulties | src/block_validator.rs:251-275 | along every run, for each recorded block: its height, that with a positive interval the difficulty changes only where should_adjust holds, and that with bounds that admit 1,000,000 it stays in them and obeys the 4x rule |
| Consensus.BoundsKeptIff | src/consensus.rs:33-42 | every recorded difficulty of every chain in every run lies within the configured bounds if and only if the bounds admit the fixed start of 1,000,000 |
| Consensus.DifficultyFollowsSchedule | src/consensus.rs:191-215 | along every run, under any configuration, the difficulty of each recorded block is the one before, except at the end of a period that took time: there it is the floor of previous * target time / actual time of exactly that period, limited to a factor of four and then to the bounds, with the milliseconds written from the recorded times |
| Consensus.RunLog | src/consensus.rs:183-224 | chain, height, hash, address and nonce of a chain's records are those of its accepted proofs in order, and total_work is the sum of their difficulty_achieved, under any configuration and clock |
| Consensus.WorkFitsU128 | src/consensus.rs:189 | total_work cannot overflow u128 before the height overflows u64 |
| Consensus.HistoryQuery | src/consensus.rs:235-244 | get_block_history(c, n) is the last min(n, height) records, newest first, with contiguous descending heights |
| Consensus.PoWConsensus.GetStats | src/consensus.rs:252-273 | the summing loop returns the statistics of the state |
| Consensus.StatsAre | src/consensus.rs:252-273 | active_chains counts the chains, and the average is the total work divided by the blocks rounded down, 0 without blocks |
| Consensus.StatsOfRun | src/consensus.rs:252-273 | in every run total_blocks is the sum of all chain heights, total_work the sum over chains of their recorded difficulties, and the average lies within bounds that admit the start |
| Consensus.TotalBlocks | src/consensus.rs:252-273 | the shared history is as long as the chain heights add up to |
| Mining.CursorFormula | src/miner.rs:127-222 | the pair at attempt n is the counter extra * 2^64 + nonce, and a look for new work follows every millionth attempt |
| Mining.NoPairRepeats | src/miner.rs:208-218 | no pair is tried twice before 2^128 attempts |
| Mining.EveryPairIsTried | src/miner.rs:208-218 | each pair is tried, at the attempt it numbers |
| Mining.HitIs | src/miner.rs:134-148 | attempt n succeeds if and only if SHA-512 of header, n mod 2^64 and n / 2^64 mod 2^64 is numerically at most the target |
| Mining.ReplacedIs | src/miner.rs:221-230 | the loop leaves after attempt n if and only if n + 1 is a multiple of a million and the work then current has another id |
| Mining.ProofFields | src/miner.rs:151-170 | every field of the proof an attempt yields, from package, attempt number, address and clock |
| Mining.HitsExactlyWhenSolvable | src/miner.rs:132-148 | some attempt hits if and only if some pair solves the package, and then within the first 2^128 |
| Mining.StopsIff | src/miner.rs:132-242 | the loop stops if and only if the package is solvable or a look finds it replaced |
| Mining.Miner.Search | src/miner.rs:132-242 | the loop ends at the first attempt that hits or sees replaced work, with the pair that hit and the counter advanced by n + 1 |
| Mining.Miner.Finish | src/miner.rs:152-206 | a proof that builds is counted and timed (last 100 times kept); one that does not changes no statistics |
| Mining.Miner.MineWork | src/miner.rs:115-242 | the result is the proof of the first hit in the order, an error when it does not build, None only when replaced work stopped the search first; the hash counter rose by n + 1 mod 2^64 |
| Mining.LoopResult | src/miner.rs:149-206 | no earlier attempt hit; None means replaced work; an error means an empty miner address; otherwise the proof is a mined one |
| Mining.MinedProofVerifies | src/work.rs:201-223 | a mined proof passes verify against its package's target, carries its work id, chain and height, and claims exactly the difficulty its hash shows |
| EndToEnd.PackageFacts | src/consensus.rs:123-155 | a package is for the next height at the current difficulty and target of its chain |
| EndToEnd.ChainMovesWithAccepted | src/consensus.rs:164-185 | a chain's height rises by the number of accepted blocks, and without one its whole state stays |
| EndToEnd.MinedProofOutcome | src/consensus.rs:158-178 | whatever happened since the package was made, its mined proof is accepted if no block was accepted on that chain, and refused for its height otherwise |
| EndToEnd.FirstProofWins | src/consensus.rs:164-171 | of any number of racing proofs for one height exactly the first submitted is accepted |
| EndToEnd.AcceptedIsValidIff | src/consensus.rs:173-178 | an accepted proof passes the block validator at the same difficulty if and only if the hash it claims is the header's own and meets the stricter target |
| EndToEnd.EmptyHashIsAccepted | src/consensus.rs:173-178 | a proof that claims an empty hash is accepted by a fresh chain, though no header makes it valid |
| OutpointKeys.KeyInjective | src/transaction_engine.rs:50 | the key "hash:index" determines hash and index, whatever characters the hash holds |
| UtxoSet.UTXOSet.AddUtxo | src/transaction_engine.rs:49-78 | the new set and answer are the add step, with its three validation errors |
| UtxoSet.AddOutcome | src/transaction_engine.rs:49-78 | an entry is filed under "hash:index" if and only if its amount is positive and its hash 128 hexadecimal digits; each error has its own condition and changes nothing |
| UtxoSet.UTXOSet.SpendUtxo | src/transaction_engine.rs:92-106 | the new set and answer are the spend step; only the primary map can change |
| UtxoSet.SpendOutcome | src/transaction_engine.rs:92-106 | a spend succeeds if and only if the entry is there and unspent, and changes only its flag |
| UtxoSet.UTXOSet.GetAddressUtxos | src/transaction_engine.rs:109-126 | the loop returns the unspent entries filed under the address, in index order |
| UtxoSet.UTXOSet.GetAddressBalance | src/transaction_engine.rs:129-132 | the balance is the wrapped u128 sum of those entries |
| UtxoSet.IndexListsExactly | src/transaction_engine.rs:109-126 | get_address_utxos lists each unspent entry of that recipient exactly once and nothing else |
| UtxoSet.SpendLowersOneBalance | src/transaction_engine.rs:92-106 | a spend lowers the recipient's balance by the entry's amount and no other balance |
| UtxoSet.AddRaisesOneBalance | src/transaction_engine.rs:65-74 | adding a fresh entry raises exactly its recipient's balance |
| UtxoSet.RunRefines | src/transaction_engine.rs:32-158 | in every run that adds each outpoint once, the index refines the primary map and all balances add up to the total unspent amount |
| UtxoSet.RefinesIffAddedOnce | src/transaction_engine.rs:65-74 | over all runs the index refines the map at the end if and only if no outpoint was added twice |
| UtxoBalances.BalancesAddUpIff | src/transaction_engine.rs:109-132 | over all runs the balances of all addresses add up to the total unspent amount if and only if every entry still unspent was added exactly once |
| UtxoSet.SpendableIffOpen | src/transaction_engine.rs:92-106 | over all runs an outpoint can be spent at the end if and only if the last event on it added it unspent |
| UtxoSet.SpendsAreCounted | src/transaction_engine.rs:92-106 | over all runs the successful spends of an outpoint are exactly the spend calls whose preceding event on it added it unspent |
| UtxoSet.SpentTwiceIff | src/transaction_engine.rs:96-101 | an outpoint is spent twice if and only if there are two such spend calls |
| UtxoSet.SpendsWithinAdds | src/transaction_engine.rs:92-106 | over all runs an outpoint is spent at most as often as it was added |
| UtxoSet.SpentAtMostOnce | src/transaction_engine.rs:96-101 | an outpoint that is added once is successfully spent at most once, and is then marked |
| UtxoSet.ReaddedIsSpentTwice | src/transaction_engine.rs:65-74 | any valid entry that is added, spent, added again and spent again is an instance: it is spent exactly twice |
| Transactions.ValidateWithUtxoSet | src/transaction_engine.rs:428-536 | success if and only if the basic check passes, every input is an unspent output of the sender with an amount from 1 to MAX_SUPPLY and a signature of 128 hexadecimal digits, and the inputs cover outputs and fee; an input error is the first such requirement that the first faulty input misses |
| Transactions.FaultIff | src/transaction_engine.rs:436-516 | one input: no fault if and only if it meets all of those requirements, and each fault's own condition |
| Transactions.ValidateIff | src/transaction_engine.rs:386-423 | the basic check passes if and only if sender, inputs and outputs are there, every output pays, and the wrapped output sum is within the stand-in total; each error by its condition |
| Transactions.StandInTotalIs | src/transaction_engine.rs:266-376 | that total: 1, 2, 5, 10 and then i + 1 coins for each input with a 128-digit hash and a hexadecimal signature of 128, 132 or 5120 digits, up to the supply, saturating |
| Transactions.DistinctInputsSpend | src/transaction_engine.rs:92-106 | distinct fault-free inputs are all spent in turn, no other entry changes, and the sender's balance falls by exactly their amounts |
| Transactions.ValidatedInputsSpendIff | src/transaction_engine.rs:428-536 | after a successful validation the inputs can all be spent if and only if no outpoint is listed twice; the sender's balance then falls by at least what validation compared with, which is outputs plus fee when that fits u128 |
| Transactions.KnownInputHasLongHash | src/transaction_engine.rs:497-503 | any input the set knows has a 128-character hash, so its 16-character prefix exists |
| Accounts.TransactionEngine.GetOrCreateAccount | src/transaction_engine.rs:633-639 | a missing account appears empty, an existing one is returned unchanged |
| Accounts.TransactionEngine.SubmitTransaction | src/transaction_engine.rs:642-665 | the new state and answer are the submission step |
| Accounts.SubmitOutcome | src/transaction_engine.rs:642-665 | taken, and put last in the mempool, if and only if it is valid and the sender's balance is at least min(outputs mod 2^128 + fee, 2^128 - 1); otherwise the validation error or InsufficientBalance, and only an empty account can appear |
| Accounts.TransactionEngine.ExecuteTransaction | src/transaction_engine.rs:668-731 | the method is the execution step; what that step answers is ExecuteOutcome |
| Accounts.ExecuteOutcome | src/transaction_engine.rs:668-731 | the earliest waiting transaction with the hash ends Confirmed if and only if the sender's balance is at least min(outputs mod 2^128 + fee, 2^128 - 1), for amounts that fit outputs + fee; otherwise Failed with InsufficientBalance; both logs and the mempool follow |
| Accounts.TransactionEngine.ExecuteTxInternal | src/transaction_engine.rs:734-752 | the ledger after debiting, crediting outputs in turn and writing the sender last, or only touched when the balance is short; when it is short is ConfirmedCost |
| Accounts.ConfirmedCost | src/transaction_engine.rs:574-582 | a transfer goes through if and only if the balance covers the cost, and then lowers the sender's balance by exactly it |
| Accounts.ExecuteTakesFirst | src/transaction_engine.rs:677-684 | a known hash executes the earliest waiting transaction with it, which alone leaves the mempool; an unknown hash changes nothing |
| Accounts.TransferByAccount | src/transaction_engine.rs:734-752 | what a confirmed transaction does to every single balance and nonce, repeated recipients included |
| Accounts.TransferBooks | src/transaction_engine.rs:734-752 | on every ledger, whatever the amounts: the total falls by what the sender is charged and rises by what the others are paid less what overfills their accounts, which is nothing until they hold the u128 maximum |
| Accounts.WrappedOutputsMint | src/transaction_engine.rs:642-752 | two outputs of 2^127, submitted and executed on an empty ledger, are confirmed and raise the total from 0 to 2^128 for no fee |
| Accounts.LossIsFeeIff | src/transaction_engine.rs:734-752 | on every ledger a confirmed transaction costs exactly its fee if and only if the sender is charged the fee and what the others are paid less what overfills their accounts; below the u128 maximum, if and only if the outputs to others add up to the wrapped u128 sum of all outputs |
| Accounts.LossIsFeeIffUnpaid | src/transaction_engine.rs:741-752 | in particular, for a valid transaction whose amounts fit u128 on a ledger that does, the loss is exactly the fee if and only if no output pays the sender |
| Accounts.FailedTransferChangesNothing | src/transaction_engine.rs:736-738 | a failed execution changes no balance and no nonce |
| Accounts.RunCounts | src/transaction_engine.rs:659-729 | along every run submissions taken = mempool + executed, and each execution is logged with its transaction and status |
| Accounts.NonceCountsConfirmed | src/transaction_engine.rs:585-588 | from any ledger a nonce grows by the number of confirmed transactions its address sent, saturating |
| Accounts.RunBooks | src/transaction_engine.rs:642-752 | along every run, from any ledger and whatever the amounts: total + charged = initial total + delivered, until the total reaches the u128 maximum |
| Accounts.RunConserves | src/transaction_engine.rs:734-752 | in particular, along every run of amounts that fit u128 the ledger total plus the fees and self-payments of confirmed transactions is constant |
| Emission.NextHalvingIsFirstIff | src/rewards.rs:82-84 | the wrapped next halving height is the first halving block above the current one if and only if that height fits u64 |
| Emission.BlocksUntilHalvingIsDistance | src/rewards.rs:87-89 | blocks_until_halving is always the distance to the first halving block above, wraps included |
| Emission.RewardByEra | src/rewards.rs:43-53 | the reward is constant up to the next halving height and halves (or ends) there |
| Emission.RewardNonIncreasing | src/reward_distribution.rs:155-165 | rewards never rise with height |
| Emission.RewardEnds | src/reward_distribution.rs:158-162 | nothing is paid from height 64 * interval on |
| Emission.EmissionCap | src/reward_distribution.rs:155-165 | the base rewards of any finite set of distinct heights sum to at most 2 * base * interval |
| Rewards.RewardDistributionManager.RecordBlockReward | src/reward_distribution.rs:168-205 | the record holds the call's height, hash, miner, fees and clock, the halved base reward, and their sum cut at the u128 maximum; the state is the recording step |
| Rewards.RecordFields | src/reward_distribution.rs:102-125 | the base reward is base / 2^(height / interval) rounded down, 0 from 64 halvings on, and total_reward is min(base_reward + fees, 2^128 - 1) |
| Rewards.RecordEffect | src/reward_distribution.rs:168-205 | recording credits that total to the named miner alone, opens a missing account, counts the block and appends the record |
| Rewards.RewardDistributionManager.ProcessPayoutTo | src/reward_distribution.rs:226-257 | the new state and answer are the payout step |
| Rewards.PayoutEffect | src/reward_distribution.rs:226-257 | a payout by cases: the three errors and their conditions, and the exact new account and distributed total |
| Rewards.MarkPaidAfterCheck | src/reward_distribution.rs:62-73 | after the balance check mark_paid cannot fail, and lowers the balance by the amount |
| Rewards.RunKeepsInv | src/reward_distribution.rs:51-78 | along every run, saturation included: paid <= total <= pending + paid; totals are the cut sums of a miner's records; total_distributed is the cut sum of paid; equality while they fit |
| Rewards.HistoryIsCalls | src/reward_distribution.rs:168-205 | along every run the history holds one record a call, in order, with the call's height, hash, miner, fees and clock, its halved reward and their sum |
| Rewards.TotalIsEarned | src/reward_distribution.rs:168-205 | along every run an account's total_rewards is the sum of base reward and fees over the calls that name it, cut at the u128 maximum; without calls that earn there is nothing |
| Rewards.PayoutSucceedsIff | src/reward_distribution.rs:234-243 | in every reachable state a payout succeeds if and only if the account exists and what it has been paid plus the amount stays within what its calls earned: base rewards and fees, cut at the u128 maximum |
| PoolPayout.WrappedSharesPartition | src/mining_pool.rs:396-403 | the u64 sums of all miners add up to the u64 total and some number of lost wraps |
| PoolPayout.PayoutsWithinRewardIff | src/mining_pool.rs:433-465 | for every fee below 100 percent the payouts to a set of eligible miners stay within the reward less the fee, at every reward, if and only if their u64 sums stay within the u64 total (or that is zero and nobody is paid) |
| PoolPayout.AllPaidWithinIff | src/mining_pool.rs:433-465 | when every miner with a share is eligible, if and only if the u64 sums make up the u64 total |
| PoolPayout.WrappedTotalOverpays | src/mining_pool.rs:448-462 | two shares of 2^64 - 1 and 1001: a block of 100,000 with a fee of one percent pays the first miner 99 * (2^64 - 1) |
| PoolPayout.PayoutsWithinReward | src/mining_pool.rs:433-465 | in particular, while the total difficulty fits u64 the payouts sum to at most the reward less the fee |
| PoolPayout.PayoutValue | src/mining_pool.rs:433-465 | one payout: the p with p * total <= reward after fee * own < (p + 1) * total on the u64 sums, cut at the u128 maximum, nothing when the total is zero |
| PoolPayout.AfterFeeIs | src/mining_pool.rs:458-459 | the fee is a hundredth of the product modulo 2^128, rounded down, and is taken off modulo 2^128 |
| PoolPayout.EligibleIff | src/mining_pool.rs:406-430 | an address is valid if and only if it has 20 bytes that are not all zero and not all 0xFF; each error by its condition |
| PoolPayout.FeeIsPercentageIff | src/mining_pool.rs:458 | the fee is the configured percentage if and only if reward * percentage fits u128 |
| PoolPayout.PayoutDust | src/mining_pool.rs:457-464 | when every miner with a share is eligible and the u64 total is positive, the payouts exceed the reward less the fee less one unit a miner, wrapped sums or not |
| PoolPayout.ShareTotals | src/mining_pool.rs:581-588 | the map get_top_miners fills holds every miner's own u64 sum, and its values add up to the u64 total and some number of wraps |
| PoolPayout.TopMinersAreTop | src/mining_pool.rs:589-592 | whatever descending order the sort gives equal miners, min(limit, miners) miners are listed with their own u64 sums, and none left out has more than one listed |
| RateLimiter.StratumServer.CheckIpRateLimit | src/stratum.rs:168-196 | the new table and answer are the counting step |
| RateLimiter.StratumServer.AcceptConnection | src/stratum.rs:200-223 | block check, rate check and pool-full check in order, as the admission step |
| RateLimiter.AcceptOutcome | src/stratum.rs:153-223 | the verdict and the new table entry of one attempt, by cases: blocked, over the limit and blocked from then on, pool full, admitted |
| RateLimiter.AdmissionsPerSecond | src/stratum.rs:168-196 | over any trace any half-open second admits at most 2 * max - 1 (so at most 2 * max) connections from one address |
| RateLimiter.BoundIsReached | src/stratum.rs:178-182 | for every positive limit some trace reaches that bound |
| RateLimiter.NoAdmissionWhileBlocked | src/stratum.rs:153-165 | after an over-limit rejection at t every attempt before t + block duration is blocked, and none is admitted |
| RateLimiter.BlockedIff | src/stratum.rs:153-165 | along every trace an attempt is blocked if and only if an earlier one of its address was refused for the limit less than the block duration before |
| RateLimiter.AdmittedAfterBlock | src/stratum.rs:168-223 | once every such block has run out, the first attempt in a new window is admitted if a client place is free |
| BlockTimes.DifficultyAdjustmentManager.RecordBlockTime | src/difficulty_adjustment.rs:111-124 | the push and trimming loop leave the last interval + 1 block times |
| BlockTimes.DifficultyAdjustmentManager.CalculateNewDifficulty | src/difficulty_adjustment.rs:127-204 | the method is the retargeting step with its early returns; what that step yields is NothingToAdjust and CalculatedValue |
| BlockTimes.NothingToAdjust | src/difficulty_adjustment.rs:130-156 | too few blocks and a window of no length leave everything as it is; an empty window with interval 0 is the error |
| BlockTimes.CalculatedValue | src/difficulty_adjustment.rs:144-203 | otherwise the new difficulty is current * expected / actual seconds rounded down, limited to a factor of four and then to the bounds, and one record of exactly that is appended |
| BlockTimes.WindowIsSuffix | src/difficulty_adjustment.rs:115-118 | along every run the window is the last min(n, interval + 1) recorded block times |
| BlockTimes.ExactSpacingIsFixedPoint | src/difficulty_adjustment.rs:158-178 | blocks at exactly the target spacing leave the difficulty where it is |
| BlockTimes.CalculateAntitoneIff | src/difficulty_adjustment.rs:127-204 | of two full windows with the same blocks the longer gives no higher difficulty, if and only if the shorter is not skipped for being zero, or the longer does not raise the current difficulty |
| BlockTimes.CalculateInBoundsIff | src/difficulty_adjustment.rs:127-178 | the result lies within the bounds if and only if the window is adjusted for or the current difficulty lies within them |
| BlockTimes.HistoryChains | src/difficulty_adjustment.rs:185-201 | without set_difficulty every adjustment in a run's history starts from the one before (the first from the initial difficulty), and the last one is the current difficulty |
| BlockTimes.RunStaysInBounds | src/difficulty_adjustment.rs:162-201 | without set_difficulty, from an initial difficulty within the bounds, every difficulty in a run stays within them and no adjustment exceeds a factor of four |
| BlockTimes.RecentAreLast | src/difficulty_adjustment.rs:239-250 | get_recent_adjustments is the last n adjustments in their own order |
| StratumPool.Pool.RegisterMiner | src/stratum_pool.rs:286-318 | the new pool and answer are the registration step |
| StratumPool.RegisterOutcome | src/stratum_pool.rs:286-318 | a valid address opens a session without shares at the pool's minimum difficulty; an invalid one changes nothing |
| StratumPool.Pool.MeetsDifficulty | src/stratum_pool.rs:432-505 | true if and only if the text decodes to 64 bytes that meet the mask target of a positive difficulty |
| StratumPool.ValidShareIff | src/stratum_pool.rs:432-505 | a share is valid if and only if it is 128 hexadecimal digits, the difficulty is positive and hash * 2^floor(log2 d) < 2^512 |
| StratumPool.Pool.SubmitShareOf | src/stratum_pool.rs:373-425 | the new pool and answer are the share step, node errors included |
| StratumPool.ShareOutcome | src/stratum_pool.rs:373-425 | the counters of a share by its validity at the session's difficulty; a valid one is answered true unless it also meets the network difficulty and the node submission fails, then with that failure |
| StratumPool.HandleOutcome | src/stratum_pool.rs:1213-1283 | subscription and authorisation by cases: what they change in pool and connection, and what they answer |
| StratumPool.SubmissionOutcome | src/stratum_pool.rs:1284-1465 | a submission is refused without authorisation, then as stale if its job's height is from 1 to below the work height, both changing nothing; otherwise it is counted and answered as a share |
| StratumPool.RunKeepsWorld | src/stratum_pool.rs:1213-1302 | in every run shares = valid + invalid, total_valid_shares is the sum over sessions, and connections hold only registered miners, authorised ones always one |
| StratumPool.SharesAddUp | src/stratum_pool.rs:1284-1465 | the shares of all sessions add up to the submissions answered as shares; unauthorised and stale ones count nowhere |
| StratumPool.RunKeepsConnections | src/stratum_pool.rs:1213-1302 | in every run, repeated UUIDs or not, connections hold only registered miners and authorised ones always one |
| StratumPool.NeverMinerNotFound | src/stratum_pool.rs:379-382 | in every run no request on any connection is answered with "Miner not found" |
| StratumPool.MinedShareCounts | src/stratum_pool.rs:373-425 | a share the CPU miner found at d, sent as hex, counts as valid in every session of difficulty at most d |
| JobIds.HeightOfMinerJob | src/bin/cpu_miner_real.rs:326 | the height the pool parses from a miner's job identifier is its nonce's hexadecimal digits read as decimal ones, or none |
| JobIds.HeightOfPoolJob | src/stratum_pool.rs:1308-1315 | from an identifier that begins with a decimal height the pool parses that height, or none when it exceeds u64 |
| JobIds.HeightOfOther | src/stratum_pool.rs:1308-1315 | from text that is no number, a leading plus sign aside, it parses none |
| StratumPool.MinedShareOutcome | src/stratum_pool.rs:1308-1330 | sent under the miner's own job identifier, such a share is refused as stale if and only if those digits read as a number from 1 to below the work height; otherwise it counts as valid |
| BlockBytes.HeaderToBytes | src/block_builder.rs:47-56 | the appended buffer is the 80-byte layout, and parses back to the header |
| BlockBytes.HeaderFields | src/block_builder.rs:47-56 | the 80 bytes of a header, field by field |
| BlockBytes.CoinbaseToBytes | src/block_builder.rs:139-147 | the appended buffer is the writing of this coinbase and of no other |
| BlockBytes.CoinbaseFields | src/block_builder.rs:139-147 | the bytes of a coinbase, field by field: height, address, a zero byte, reward and fees |
| BlockBytes.BlockToBytes | src/block_builder.rs:196-203 | the appended buffer is the writing of this block and of no other |
| BlockBytes.BlockFields | src/block_builder.rs:196-203 | the bytes of a block: header, coinbase, height and time |
| BlockBytes.CoinbaseInjective | src/block_builder.rs:139-147 | one coinbase writing determines the coinbase: the address length follows from the total length |
| BlockBytes.HeaderRoundTrip | src/block_builder.rs:59-84 | reading a written header gives it back |
| BlockBytes.ParseRoundTrip | src/block_builder.rs:59-84 | every 80-byte string is the writing of the header it parses to |
| BlockBytes.OtherSizesRefused | src/block_builder.rs:59-64 | anything but 80 bytes is refused |
| BlockBytes.BlockBytesInjective | src/block_builder.rs:196-203 | different blocks are written differently, although the address carries no length |

## Left out

- Mining.Miner.MineWork: a search that never stops has no result to state; the method is entered only when some attempt stops it, and `Mining.StopsIff` says exactly when one does.
- WideDivision.DivU128: when a divisor above 2^64, which the miner never uses, loses bits of a dividend whose true quotient has a zero limb, only the machine-word result is stated.
- StratumPool.RunKeepsWorld: UUIDs are supposed never to repeat.
- Consensus.RunKeepsInv: heights beyond the u64 maximum are not modelled.
- PoolPayout.PayoutsWithinRewardIff: for fees of 100 percent and more, which `with_fee` does not set, only that sums within the total suffice is stated.
- Emission.NextHalvingIsFirstIff: a zero interval divides by zero in the source and is excluded.
- `f64` rounding of difficulties above 2^53 and of logarithms next to a power of two.
- `calculate_difficulty_bits`, `bits_to_difficulty` and `difficulty_to_bits`, which rest on `powf` and `log2` of non-integers.
- Registration, share intake, share clearing and account bookkeeping of src/mining_pool.rs, and the sort `get_top_miners` calls (its result is an input): they would add only easy members.
- The time-based counters `hashrate`, `average_time_per_proof` and uptime, gas metering, and base58 address checks.
- `Block::from_hex`, whose layout is not the one `Block::to_bytes` writes, and block hashing.
- The per-client message limit and the Stratum v1 message loop of src/stratum.rs, the immediate block submission that an `is_block` flag triggers (its answer is ignored and changes no counter), and the background height sync (its effect is the `UpdateWork` event).
- Sockets, HTTP and JSON, timeouts, retries, logging and argument parsing; src/websocket_server.rs, src/stratum_client.rs, src/block_submission.rs and the node binaries.
