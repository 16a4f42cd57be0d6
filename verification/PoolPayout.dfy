/**
 Proportional payouts of the mining pool (src/mining_pool.rs).  Sums of u64
 difficulties and products of u128 amounts wrap; a payout is the integer floor of
 reward * own difficulty / total difficulty, cut at the u128 maximum.
 */
module PoolPayout {

  import opened Arithmetic
  import opened Words
  import opened Outcomes
  import opened Sums

  type u8 = n: nat | n < 256

  datatype MinerId = MinerId(bytes: seq<Byte>)

  datatype MinerShare = MinerShare(minerId: MinerId, difficulty: u64, timestamp: u64, isBlock: bool)

  datatype PoolError = BadAddressLength | AddressAllZeros | AddressAllOnes

  /** `validate_miner_address` */
  function ValidateMinerAddress(id: MinerId): Result<(), PoolError> {
    var address := id.bytes;
    if |address| != 20 then Err(BadAddressLength)
    else if address == Repeat(0, 20) then Err(AddressAllZeros)
    else if address == Repeat(0xFF, 20) then Err(AddressAllOnes)
    else Ok(())
  }

  /** `get_miner_shares` */
  function MinerShares(shares: seq<MinerShare>, id: MinerId): seq<MinerShare> {
    if shares == [] then []
    else
      var last := shares[|shares| - 1];
      MinerShares(shares[..|shares| - 1], id) + if last.minerId == id then [last] else []
  }

  function SumDifficulty(shares: seq<MinerShare>): nat {
    if shares == [] then 0 else SumDifficulty(shares[..|shares| - 1]) + shares[|shares| - 1].difficulty
  }

  /** `map(|s| s.difficulty).sum()`: a u64 sum, which wraps. */
  function TotalDifficulty(shares: seq<MinerShare>): u64 {
    Wrap64(SumDifficulty(shares))
  }

  function Wrap64(x: nat): (w: u64)
    ensures w <= x && (x < U64_MOD ==> w == x)
  {
    x % U64_MOD
  }

  /** Wrapping before an addition makes no difference to wrapping after it. */
  lemma WrapAdd(x: nat, y: nat)
    ensures Wrap64(Wrap64(x) + y) == Wrap64(x + y)
  {
  }

  /** `pool_fee`: the u128 product wraps. */
  function PoolFee(reward: u128, feePercentage: u8): u128 {
    Product(reward, feePercentage) / 100
  }

  function Product(reward: u128, feePercentage: u8): (p: u128)
    ensures p <= reward * feePercentage
    ensures p == reward * feePercentage <==> reward * feePercentage < U128_MOD
  {
    WrappedBelow(reward * feePercentage, U128_MOD);
    reward * feePercentage % U128_MOD
  }

  lemma WrappedBelow(x: nat, m: nat)
    requires m > 0
    ensures 0 <= x % m <= x && x % m < m && (x % m == x <==> x < m)
  {
    DivMod(x, m);
    MulMono(0, x / m, m);
    if x < m {
      DivUnique(x, m, 0, x);
    }
  }

  /** Hundredths of a wrapped number are those of the number exactly when it does not wrap. */
  lemma WrappedHundredths(x: nat, q: nat, r: nat)
    requires x == q * U128_MOD + r && r < U128_MOD
    ensures r / 100 == x / 100 <==> q == 0
  {
    if q > 0 {
      assert x >= r + 100;
    }
  }

  /** The fee is the percentage it is configured as exactly when the product fits u128. */
  lemma FeeIsPercentageIff(reward: u128, feePercentage: u8)
    ensures PoolFee(reward, feePercentage) == reward * feePercentage / 100 <==> reward * feePercentage < U128_MOD
  {
    var x := reward * feePercentage;
    var p := Product(reward, feePercentage);
    var q := WrapsOf(x, p);
    WrappedHundredths(x, q, p);
  }

  lemma WrapsOf(x: nat, p: nat) returns (q: nat)
    requires p == x % U128_MOD
    ensures x == q * U128_MOD + p && p < U128_MOD && (q == 0 <==> x < U128_MOD)
  {
    q := x / U128_MOD;
  }

  /** `reward_after_fee`: a fee above the reward makes the u128 subtraction wrap. */
  function AfterFee(reward: u128, feePercentage: u8): u128 {
    var fee := PoolFee(reward, feePercentage);
    if fee <= reward then reward - fee else reward + U128_MOD - fee
  }

  /** Up to 100 percent it does not, wrapped product or not. */
  lemma FeeWithinReward(reward: u128, feePercentage: u8)
    requires feePercentage <= 100
    ensures AfterFee(reward, feePercentage) == reward - PoolFee(reward, feePercentage)
  {
    MulMono(feePercentage, 100, reward);
  }

  /** `calculate_miner_payout` */
  function MinerPayout(shares: seq<MinerShare>, id: MinerId, reward: u128, feePercentage: u8): Result<u128, PoolError> {
    var valid := ValidateMinerAddress(id);
    if valid.Err? then Err(valid.error)
    else
      var own := MinerShares(shares, id);
      if own == [] then Ok(0)
      else if TotalDifficulty(shares) == 0 then Ok(0)
      else
        var share := FloorShare(AfterFee(reward, feePercentage), TotalDifficulty(own), TotalDifficulty(shares));
        Ok(Min(share, U128_MAX))
  }

  /** Eligible are ids of 20 bytes that are neither all zeros nor all ones. */
  lemma EligibleIff(id: MinerId)
    ensures ValidateMinerAddress(id) == Ok(()) <==>
      && |id.bytes| == 20
      && (exists i :: 0 <= i < 20 && id.bytes[i] != 0)
      && (exists i :: 0 <= i < 20 && id.bytes[i] != 255)
    ensures |id.bytes| != 20 ==> ValidateMinerAddress(id) == Err(BadAddressLength)
    ensures |id.bytes| == 20 && (forall i :: 0 <= i < 20 ==> id.bytes[i] == 0) ==>
      ValidateMinerAddress(id) == Err(AddressAllZeros)
    ensures |id.bytes| == 20 && (forall i :: 0 <= i < 20 ==> id.bytes[i] == 255) ==>
      ValidateMinerAddress(id) == Err(AddressAllOnes)
  {
    if |id.bytes| == 20 {
      assert id.bytes == Repeat(0, 20) <==> forall i :: 0 <= i < 20 ==> id.bytes[i] == 0;
      assert id.bytes == Repeat(0xFF, 20) <==> forall i :: 0 <= i < 20 ==> id.bytes[i] == 255;
      assert id.bytes[0] == 0 || id.bytes[0] != 0;
    }
  }

  /** One payout: the own part of the reward after the fee, rounded down and cut at the u128 maximum. */
  lemma PayoutValue(shares: seq<MinerShare>, id: MinerId, reward: u128, feePercentage: u8) returns (p: nat)
    requires ValidateMinerAddress(id).Ok?
    ensures var own := SumDifficulty(MinerShares(shares, id)) % 0x1_0000_0000_0000_0000;
            var total := SumDifficulty(shares) % 0x1_0000_0000_0000_0000;
            && (if total == 0 then p == 0
                else p * total <= AfterFee(reward, feePercentage) * own < (p + 1) * total)
            && MinerPayout(shares, id, reward, feePercentage)
              == Ok(if p > 0xFFFF_FFFF_FFFF_FFFF_FFFF_FFFF_FFFF_FFFF
                    then 0xFFFF_FFFF_FFFF_FFFF_FFFF_FFFF_FFFF_FFFF else p)
  {
    var total := TotalDifficulty(shares);
    var own := TotalDifficulty(MinerShares(shares, id));
    if total == 0 {
      p := 0;
    } else {
      var product := AfterFee(reward, feePercentage) * own;
      DivMod(product, total);
      p := product / total;
      Distribute(p, 1, total);
      if MinerShares(shares, id) == [] {
        DivUnique(0, total, 0, 0);
      }
    }
  }

  /** The fee is a hundredth of the wrapped product, and is taken off the reward modulo 2^128. */
  lemma AfterFeeIs(reward: u128, feePercentage: u8) returns (fee: nat)
    ensures var product: nat := reward * feePercentage % U128_MOD; 100 * fee <= product < 100 * (fee + 1)
    ensures AfterFee(reward, feePercentage) == if fee <= reward then reward - fee else reward + U128_MOD - fee
  {
    fee := PoolFee(reward, feePercentage);
    WrappedBelow(reward * feePercentage, U128_MOD);
  }

  // ---------------------------------------------------------------- per-miner sums partition the total

  function OwnDifficulty(shares: seq<MinerShare>, id: MinerId): nat {
    SumDifficulty(MinerShares(shares, id))
  }

  ghost function Shared(shares: seq<MinerShare>, ids: set<MinerId>): map<MinerId, nat> {
    map id | id in ids :: OwnDifficulty(shares, id)
  }

  function ShareIds(shares: seq<MinerShare>): set<MinerId> {
    if shares == [] then {} else ShareIds(shares[..|shares| - 1]) + {shares[|shares| - 1].minerId}
  }

  lemma OwnDifficultySnoc(shares: seq<MinerShare>, s: MinerShare, id: MinerId)
    ensures OwnDifficulty(shares + [s], id) == OwnDifficulty(shares, id) + if s.minerId == id then s.difficulty else 0
  {
    assert (shares + [s])[..|shares|] == shares;
    var own := MinerShares(shares, id);
    assert (own + [s])[..|own|] == own;
    assert own + [] == own;
  }

  /** Over any set of miners the per-miner sums stay within the total, and they make it up when all are listed. */
  lemma {:induction false} SharesPartition(shares: seq<MinerShare>, ids: set<MinerId>)
    ensures SumMap(Shared(shares, ids)) <= SumDifficulty(shares)
    ensures ShareIds(shares) <= ids ==> SumMap(Shared(shares, ids)) == SumDifficulty(shares)
  {
    if shares == [] {
      AllZero(Shared(shares, ids));
    } else {
      var init, last := shares[..|shares| - 1], shares[|shares| - 1];
      assert shares == init + [last];
      SharesPartition(init, ids);
      SharedSnoc(init, last, ids);
    }
  }

  /** One more share changes only its own miner's sum. */
  lemma SharedGrows(init: seq<MinerShare>, last: MinerShare, ids: set<MinerId>,
                    before: map<MinerId, nat>, after: map<MinerId, nat>)
    requires before == Shared(init, ids) && after == Shared(init + [last], ids)
    ensures before.Keys == ids == after.Keys
    ensures forall id :: id in ids ==> after[id] == before[id] + if id == last.minerId then last.difficulty else 0
  {
    forall id | id in ids
      ensures after[id] == before[id] + if id == last.minerId then last.difficulty else 0
    {
      OwnDifficultySnoc(init, last, id);
    }
  }

  lemma SharedSnoc(init: seq<MinerShare>, last: MinerShare, ids: set<MinerId>)
    ensures last.minerId in ids ==>
      Shared(init + [last], ids) == AddTo(Shared(init, ids), last.minerId, last.difficulty)
    ensures SumMap(Shared(init + [last], ids))
      == SumMap(Shared(init, ids)) + if last.minerId in ids then last.difficulty else 0
  {
    var before, after := Shared(init, ids), Shared(init + [last], ids);
    SharedGrows(init, last, ids, before, after);
    OneKeyGrows(before, after, last.minerId, last.difficulty);
  }

  // ---------------------------------------------------------------- floors of a proportional split

  function FloorShare(reward: nat, part: nat, total: nat): nat
    requires total > 0
  {
    var product := reward * part;
    DivMod(product, total);
    product / total
  }

  ghost function Floors<K>(m: map<K, nat>, reward: nat, total: nat): map<K, nat>
    requires total > 0
  {
    map k | k in m :: FloorShare(reward, m[k], total)
  }

  lemma FloorsWithout<K>(m: map<K, nat>, reward: nat, total: nat, k: K)
    requires total > 0 && k in m
    ensures SumMap(Floors(m, reward, total)) == FloorShare(reward, m[k], total) + SumMap(Floors(m - {k}, reward, total))
  {
    SumMapRemove(Floors(m, reward, total), k);
    assert Floors(m, reward, total) - {k} == Floors(m - {k}, reward, total);
  }

  /** Rounding down loses something on each of n parts, but less than one unit. */
  ghost predicate LosesLess(floors: nat, reward: nat, part: nat, n: nat, total: nat) {
    floors * total <= reward * part && reward * part + n <= (floors + n) * total
  }

  lemma {:induction false} FloorsOfSplit<K>(m: map<K, nat>, reward: nat, total: nat)
    returns (floors: nat, parts: nat, n: nat)
    requires total > 0
    ensures floors == SumMap(Floors(m, reward, total)) && parts == SumMap(m) && n == |m|
    ensures LosesLess(floors, reward, parts, n, total)
    decreases |m|
  {
    if m == map[] {
      assert Floors(m, reward, total) == map[];
      floors, parts, n := 0, 0, 0;
    } else {
      var k :| k in m;
      var rest := m - {k};
      floors, parts, n := FloorsOfSplit(rest, reward, total);
      OneFloor(reward, m[k], parts, floors, n, total);
      floors, parts, n := FloorShare(reward, m[k], total) + floors, m[k] + parts, n + 1;
      SumMapRemove(m, k);
      FloorsWithout(m, reward, total, k);
    }
  }

  lemma OneFloor(reward: nat, part: nat, rest: nat, floors: nat, n: nat, total: nat)
    requires total > 0 && LosesLess(floors, reward, rest, n, total)
    ensures LosesLess(FloorShare(reward, part, total) + floors, reward, part + rest, n + 1, total)
  {
    var q := FloorShare(reward, part, total);
    DivMod(reward * part, total);
    Distribute(part, rest, reward);
    Distribute(q, floors, total);
    Distribute(q + 1, floors + n, total);
    Distribute(q, 1, total);
  }

  // ---------------------------------------------------------------- wrapped sums

  /** The u64 sum of one miner's shares. */
  function OwnTotal(shares: seq<MinerShare>, id: MinerId): u64 {
    TotalDifficulty(MinerShares(shares, id))
  }

  ghost function Totals(shares: seq<MinerShare>, ids: set<MinerId>): map<MinerId, nat> {
    map id | id in ids :: OwnTotal(shares, id)
  }

  ghost function Wrapped<K>(m: map<K, nat>): map<K, nat> {
    map k | k in m :: Wrap64(m[k])
  }

  lemma Wraps(x: nat) returns (wraps: nat)
    ensures x == Wrap64(x) + wraps * U64_MOD
  {
    wraps := x / U64_MOD;
  }

  lemma WrappedWithout<K>(m: map<K, nat>, k: K)
    requires k in m
    ensures SumMap(Wrapped(m)) == Wrap64(m[k]) + SumMap(Wrapped(m - {k}))
  {
    SumMapRemove(Wrapped(m), k);
    assert Wrapped(m) - {k} == Wrapped(m - {k});
  }

  lemma {:induction false} WrappedSum<K>(m: map<K, nat>) returns (wraps: nat)
    ensures SumMap(m) == SumMap(Wrapped(m)) + wraps * U64_MOD
    decreases |m|
  {
    if m == map[] {
      assert Wrapped(m) == m;
      wraps := 0;
    } else {
      var k :| k in m;
      var rest := WrappedSum(m - {k});
      var own := Wraps(m[k]);
      SumMapRemove(m, k);
      WrappedWithout(m, k);
      wraps := own + rest;
    }
  }

  lemma TotalsAreWrapped(shares: seq<MinerShare>, ids: set<MinerId>)
    ensures Totals(shares, ids) == Wrapped(Shared(shares, ids))
  {
  }

  /** The u64 sums of all miners add up to the u64 total and some number of wraps, which are lost to the total. */
  lemma WrappedSharesPartition(shares: seq<MinerShare>, ids: set<MinerId>) returns (wraps: nat)
    requires ShareIds(shares) <= ids
    ensures SumMap(Totals(shares, ids)) == TotalDifficulty(shares) + wraps * U64_MOD
  {
    SharesPartition(shares, ids);
    TotalsAreWrapped(shares, ids);
    var lost := WrappedSum(Shared(shares, ids));
    var all := Wraps(SumDifficulty(shares));
    wraps := ExtraWraps(SumMap(Totals(shares, ids)), lost, TotalDifficulty(shares), all);
  }

  lemma ExtraWraps(sums: nat, lost: nat, total: u64, all: nat) returns (wraps: nat)
    requires sums + lost * U64_MOD == total + all * U64_MOD
    ensures sums == total + wraps * U64_MOD
  {
    assert lost <= all;
    wraps := all - lost;
  }

  /** While the total fits u64 nothing wraps. */
  lemma NothingWraps(shares: seq<MinerShare>, ids: set<MinerId>)
    requires SumDifficulty(shares) < U64_MOD
    ensures TotalDifficulty(shares) == SumDifficulty(shares)
    ensures SumMap(Totals(shares, ids)) <= TotalDifficulty(shares)
  {
    SharesPartition(shares, ids);
    TotalsAreWrapped(shares, ids);
    var wraps := WrappedSum(Shared(shares, ids));
  }

  // ---------------------------------------------------------------- the payouts of a block

  ghost predicate Eligible(ids: set<MinerId>) {
    forall id :: id in ids ==> ValidateMinerAddress(id).Ok?
  }

  ghost function Payouts(shares: seq<MinerShare>, ids: set<MinerId>, reward: u128, feePercentage: u8): map<MinerId, nat>
    requires Eligible(ids)
  {
    map id | id in ids :: MinerPayout(shares, id, reward, feePercentage).value
  }

  ghost function Capped<K>(m: map<K, nat>, cap: nat): map<K, nat> {
    map k | k in m :: Min(m[k], cap)
  }

  lemma {:induction false} CappedSum<K>(m: map<K, nat>, cap: nat)
    ensures SumMap(Capped(m, cap)) == SumMap(m) || cap <= SumMap(Capped(m, cap)) < SumMap(m)
    decreases |m|
  {
    if m == map[] {
      assert Capped(m, cap) == m;
    } else {
      var k :| k in m;
      CappedSum(m - {k}, cap);
      SumMapRemove(m, k);
      SumMapRemove(Capped(m, cap), k);
      assert Capped(m, cap) - {k} == Capped(m - {k}, cap);
    }
  }

  lemma PayoutsAreFloors(shares: seq<MinerShare>, ids: set<MinerId>, reward: u128, feePercentage: u8)
    requires Eligible(ids) && TotalDifficulty(shares) > 0
    ensures Payouts(shares, ids, reward, feePercentage)
      == Capped(Floors(Totals(shares, ids), AfterFee(reward, feePercentage), TotalDifficulty(shares)), U128_MAX)
  {
    forall id | id in ids
      ensures MinerPayout(shares, id, reward, feePercentage).value
        == Min(FloorShare(AfterFee(reward, feePercentage), OwnTotal(shares, id), TotalDifficulty(shares)), U128_MAX)
    {
      OnePayout(shares, id, reward, feePercentage);
    }
  }

  lemma OnePayout(shares: seq<MinerShare>, id: MinerId, reward: u128, feePercentage: u8)
    requires ValidateMinerAddress(id).Ok? && TotalDifficulty(shares) > 0
    ensures MinerPayout(shares, id, reward, feePercentage)
      == Ok(Min(FloorShare(AfterFee(reward, feePercentage), OwnTotal(shares, id), TotalDifficulty(shares)), U128_MAX))
  {
    NothingOwned(AfterFee(reward, feePercentage), TotalDifficulty(shares));
  }

  lemma NothingOwned(reward: nat, total: nat)
    requires total > 0
    ensures FloorShare(reward, 0, total) == 0
  {
    DivUnique(0, total, 0, 0);
  }

  /** The payouts of a block sum to at most the reward less the fee. */
  ghost predicate WithinReward(shares: seq<MinerShare>, ids: set<MinerId>, reward: u128, feePercentage: u8)
    requires Eligible(ids)
  {
    SumMap(Payouts(shares, ids, reward, feePercentage)) <= AfterFee(reward, feePercentage)
  }

  /** The u64 sums of these miners stay within the u64 total, or the total is zero and nobody is paid. */
  ghost predicate SumsWithinTotal(shares: seq<MinerShare>, ids: set<MinerId>) {
    TotalDifficulty(shares) == 0 || SumMap(Totals(shares, ids)) <= TotalDifficulty(shares)
  }

  lemma SumsWithinSuffices(shares: seq<MinerShare>, ids: set<MinerId>, reward: u128, feePercentage: u8)
    requires Eligible(ids) && SumsWithinTotal(shares, ids)
    ensures WithinReward(shares, ids, reward, feePercentage)
  {
    var total, after := TotalDifficulty(shares), AfterFee(reward, feePercentage);
    if total == 0 {
      AllZero(Payouts(shares, ids, reward, feePercentage));
    } else {
      PayoutsAreFloors(shares, ids, reward, feePercentage);
      var floors, parts, _ := FloorsOfSplit(Totals(shares, ids), after, total);
      CappedSum(Floors(Totals(shares, ids), after, total), U128_MAX);
      Cancel(floors, after, parts, total);
    }
  }

  lemma Cancel(q: nat, reward: nat, part: nat, total: nat)
    requires total > 0 && part <= total && q * total <= reward * part
    ensures q <= reward
  {
    MulMono(part, total, reward);
    if q > reward {
      MulMono(reward + 1, q, total);
      Distribute(reward, 1, total);
    }
  }

  /** Of 100 units a difficulty unit, the fee leaves 100 less the percentage. */
  lemma HundredPerUnit(total: u64, reward: u128, feePercentage: u8, c: nat)
    requires reward == 100 * total && feePercentage + c == 100
    ensures AfterFee(reward, feePercentage) == total * c
  {
    var fee := total * feePercentage;
    HundredTimes(total, feePercentage, reward, c);
    DivUnique(reward * feePercentage, 100, fee, 0);
  }

  lemma HundredTimes(total: u64, feePercentage: u8, reward: nat, c: nat)
    requires reward == 100 * total && feePercentage + c == 100
    ensures reward * feePercentage == (total * feePercentage) * 100 < U128_MOD
    ensures reward - total * feePercentage == total * c
  {
    MulMono(feePercentage, 100, reward);
    Associate(100, total, feePercentage);
    Distribute(feePercentage, c, total);
  }

  lemma ExactFloor(total: nat, own: nat, c: nat)
    requires total > 0
    ensures FloorShare(total * c, own, total) == own * c
  {
    Associate(total, c, own);
    DivUnique(total * c * own, total, own * c, 0);
  }

  ghost function Scaled<K>(m: map<K, nat>, c: nat): map<K, nat> {
    map k | k in m :: m[k] * c
  }

  lemma ScaledWithout<K>(m: map<K, nat>, c: nat, k: K)
    requires k in m
    ensures SumMap(Scaled(m, c)) == m[k] * c + SumMap(Scaled(m - {k}, c))
  {
    SumMapRemove(Scaled(m, c), k);
    assert Scaled(m, c) - {k} == Scaled(m - {k}, c);
  }

  lemma {:induction false} ScaledSum<K>(m: map<K, nat>, c: nat) returns (sum: nat)
    ensures sum == SumMap(m) && SumMap(Scaled(m, c)) == sum * c
    decreases |m|
  {
    if m == map[] {
      assert Scaled(m, c) == m;
      sum := 0;
    } else {
      var k :| k in m;
      var rest := ScaledSum(m - {k}, c);
      SumMapRemove(m, k);
      ScaledWithout(m, c, k);
      Distribute(m[k], rest, c);
      sum := m[k] + rest;
    }
  }

  /** At that reward every payout is exact. */
  lemma ExactPayouts(shares: seq<MinerShare>, ids: set<MinerId>, reward: u128, feePercentage: u8, c: nat)
    requires Eligible(ids) && TotalDifficulty(shares) > 0
    requires reward == 100 * TotalDifficulty(shares) && feePercentage + c == 100
    ensures Payouts(shares, ids, reward, feePercentage) == Scaled(Totals(shares, ids), c)
  {
    var total := TotalDifficulty(shares);
    HundredPerUnit(total, reward, feePercentage, c);
    forall id | id in ids
      ensures MinerPayout(shares, id, reward, feePercentage).value == OwnTotal(shares, id) * c
    {
      OnePayout(shares, id, reward, feePercentage);
      ExactFloor(total, OwnTotal(shares, id), c);
      MulMono(OwnTotal(shares, id), U64_MAX, c);
    }
  }

  lemma PaidAtHundred(shares: seq<MinerShare>, ids: set<MinerId>, reward: u128, feePercentage: u8, c: nat)
    returns (paid: nat, sums: nat)
    requires Eligible(ids) && TotalDifficulty(shares) > 0
    requires reward == 100 * TotalDifficulty(shares) && feePercentage + c == 100
    ensures sums == SumMap(Totals(shares, ids))
    ensures paid == SumMap(Payouts(shares, ids, reward, feePercentage)) == sums * c
  {
    ExactPayouts(shares, ids, reward, feePercentage, c);
    sums := ScaledSum(Totals(shares, ids), c);
    paid := sums * c;
  }

  lemma MorePaid(paid: nat, after: nat, sums: nat, total: nat, c: nat)
    requires paid == sums * c && after == total * c && sums > total && c > 0
    ensures paid > after
  {
    ScaleLess(total, sums, c);
  }

  /**
   Whatever the block pays, the payouts stay within the reward less the fee if and
   only if the u64 sums of the paid miners stay within the u64 total.
   */
  lemma PayoutsWithinRewardIff(shares: seq<MinerShare>, ids: set<MinerId>, feePercentage: u8)
    requires Eligible(ids) && feePercentage < 100
    ensures (forall reward: u128 :: WithinReward(shares, ids, reward, feePercentage)) <==> SumsWithinTotal(shares, ids)
  {
    if SumsWithinTotal(shares, ids) {
      forall reward: u128
        ensures WithinReward(shares, ids, reward, feePercentage)
      {
        SumsWithinSuffices(shares, ids, reward, feePercentage);
      }
    } else {
      var total: nat := TotalDifficulty(shares);
      var reward: u128 := 100 * total;
      var c: nat := 100 - feePercentage;
      var paid, sums := PaidAtHundred(shares, ids, reward, feePercentage, c);
      HundredPerUnit(total, reward, feePercentage, c);
      MorePaid(paid, AfterFee(reward, feePercentage), sums, total, c);
      assert !WithinReward(shares, ids, reward, feePercentage);
    }
  }

  /** While the total difficulty fits u64 the pool never pays out more than the reward less its fee. */
  lemma PayoutsWithinReward(shares: seq<MinerShare>, ids: set<MinerId>, reward: u128, feePercentage: u8)
    requires Eligible(ids) && SumDifficulty(shares) < U64_MOD
    ensures WithinReward(shares, ids, reward, feePercentage)
    ensures feePercentage <= 100 ==>
      SumMap(Payouts(shares, ids, reward, feePercentage)) <= reward - PoolFee(reward, feePercentage)
  {
    if feePercentage <= 100 {
      FeeWithinReward(reward, feePercentage);
    }
    NothingWraps(shares, ids);
    SumsWithinSuffices(shares, ids, reward, feePercentage);
  }

  /**
   When every miner with a share is eligible, the payouts are never short of the
   reward less the fee by as much as one unit a miner, wrapped sums or not.
   */
  lemma PayoutDust(shares: seq<MinerShare>, reward: u128, feePercentage: u8)
    requires TotalDifficulty(shares) > 0 && Eligible(ShareIds(shares))
    ensures AfterFee(reward, feePercentage)
      < SumMap(Payouts(shares, ShareIds(shares), reward, feePercentage)) + |ShareIds(shares)|
  {
    var total, ids := TotalDifficulty(shares), ShareIds(shares);
    var after, totals := AfterFee(reward, feePercentage), Totals(shares, ids);
    PayoutsAreFloors(shares, ids, reward, feePercentage);
    var wraps := WrappedSharesPartition(shares, ids);
    assert shares[|shares| - 1].minerId in ids;
    assert totals.Keys == ids;
    SplitDust(totals, after, total);
    CappedSum(Floors(totals, after, total), U128_MAX);
  }

  lemma SplitDust<K>(m: map<K, nat>, reward: nat, total: nat)
    requires total > 0 && SumMap(m) >= total && |m| > 0
    ensures reward < SumMap(Floors(m, reward, total)) + |m|
  {
    var floors, parts, n := FloorsOfSplit(m, reward, total);
    MulMono(total, parts, reward);
    CancelStrict(reward, floors, n, total);
  }

  lemma CancelStrict(reward: nat, q: nat, n: nat, total: nat)
    requires total > 0 && n > 0 && reward * total + n <= (q + n) * total
    ensures reward < q + n
  {
    if reward >= q + n {
      MulMono(q + n, reward, total);
    }
  }

  /** With all miners eligible the payouts stay within the reward exactly when the u64 sums make up the u64 total. */
  lemma AllPaidWithinIff(shares: seq<MinerShare>, feePercentage: u8)
    requires Eligible(ShareIds(shares)) && feePercentage < 100 && TotalDifficulty(shares) > 0
    ensures (forall reward: u128 :: WithinReward(shares, ShareIds(shares), reward, feePercentage)) <==>
      SumMap(Totals(shares, ShareIds(shares))) == TotalDifficulty(shares)
  {
    PayoutsWithinRewardIff(shares, ShareIds(shares), feePercentage);
    var wraps := WrappedSharesPartition(shares, ShareIds(shares));
  }

  // ---------------------------------------------------------------- two shares that overpay

  const FIRST: MinerId := MinerId(Repeat(1, 20))
  const SECOND: MinerId := MinerId(Repeat(2, 20))

  /** Two shares whose u64 sum is 1000. */
  const OVERFLOWING: seq<MinerShare> := [MinerShare(FIRST, U64_MAX, 0, false), MinerShare(SECOND, 1001, 0, false)]

  lemma OverflowingSums()
    ensures TotalDifficulty(OVERFLOWING) == 1000
    ensures OwnTotal(OVERFLOWING, FIRST) == U64_MAX && MinerShares(OVERFLOWING, FIRST) != []
    ensures ValidateMinerAddress(FIRST).Ok?
  {
    var a, b := MinerShare(FIRST, U64_MAX, 0, false), MinerShare(SECOND, 1001, 0, false);
    assert OVERFLOWING[..1] == [a] && [a][..0] == [];
    assert FIRST.bytes[0] == 1 && SECOND.bytes[0] == 2;
    assert MinerShares([a], FIRST) == [a];
    assert MinerShares(OVERFLOWING, FIRST) == [a];
    assert SumDifficulty([a]) == U64_MAX;
    assert Repeat(0, 20)[0] == 0 && Repeat(0xFF, 20)[0] == 0xFF;
  }

  /** Of a block worth 100,000, after one percent, the first miner alone is paid 99 times 2^64 - 1. */
  lemma WrappedTotalOverpays()
    ensures AfterFee(100_000, 1) == 99_000
    ensures MinerPayout(OVERFLOWING, FIRST, 100_000, 1) == Ok(99 * U64_MAX)
  {
    OverflowingSums();
    HundredPerUnit(1000, 100_000, 1, 99);
    ExactFloor(1000, U64_MAX, 99);
  }

  // ---------------------------------------------------------------- top miners

  /** `*entry(id).or_insert(0) += difficulty` on u64 sums. */
  function AddShare(totals: map<MinerId, nat>, s: MinerShare): map<MinerId, nat> {
    totals[s.minerId := Wrap64(At(totals, s.minerId) + s.difficulty)]
  }

  /** The map `get_top_miners` fills: every miner with a share, and the u64 sum of its difficulties. */
  method ShareTotals(shares: seq<MinerShare>) returns (totals: map<MinerId, nat>)
    ensures totals == Totals(shares, ShareIds(shares))
    ensures exists wraps: nat :: SumMap(totals) == TotalDifficulty(shares) + wraps * U64_MOD
  {
    totals := map[];
    for i := 0 to |shares|
      invariant totals == Totals(shares[..i], ShareIds(shares[..i]))
    {
      assert shares[..i + 1] == shares[..i] + [shares[i]];
      TotalsStep(shares[..i], shares[i]);
      totals := AddShare(totals, shares[i]);
    }
    assert shares[..|shares|] == shares;
    ghost var wraps := WrappedSharesPartition(shares, ShareIds(shares));
  }

  lemma OwnTotalSnoc(shares: seq<MinerShare>, s: MinerShare, id: MinerId) returns (before: u64, after: u64)
    ensures before == OwnTotal(shares, id) && after == OwnTotal(shares + [s], id)
    ensures after == if s.minerId == id then Wrap64(before + s.difficulty) else before
  {
    OwnDifficultySnoc(shares, s, id);
    WrapAdd(OwnDifficulty(shares, id), s.difficulty);
    before, after := OwnTotal(shares, id), OwnTotal(shares + [s], id);
  }

  lemma ShareIdsSnoc(shares: seq<MinerShare>, s: MinerShare)
    ensures ShareIds(shares + [s]) == ShareIds(shares) + {s.minerId}
  {
    assert (shares + [s])[..|shares|] == shares;
  }

  lemma TotalsAt(shares: seq<MinerShare>, id: MinerId)
    ensures At(Totals(shares, ShareIds(shares)), id) == OwnTotal(shares, id)
  {
    if id !in ShareIds(shares) {
      NoShares(shares, id);
    }
  }

  /** One entry of the map after one more share, from the sum before and after it. */
  lemma AddShareAt(totals: map<MinerId, nat>, s: MinerShare, id: MinerId, before: u64, after: u64)
    requires id in totals || id == s.minerId
    requires At(totals, id) == before
    requires after == if s.minerId == id then Wrap64(before + s.difficulty) else before
    ensures AddShare(totals, s)[id] == after
  {
  }

  lemma TotalsStep(init: seq<MinerShare>, s: MinerShare)
    ensures Totals(init + [s], ShareIds(init + [s])) == AddShare(Totals(init, ShareIds(init)), s)
  {
    ShareIdsSnoc(init, s);
    var ids := ShareIds(init);
    var before, after := Totals(init, ids), Totals(init + [s], ids + {s.minerId});
    forall id | id in ids + {s.minerId}
      ensures after[id] == AddShare(before, s)[id]
    {
      TotalsAt(init, id);
      var x, y := OwnTotalSnoc(init, s, id);
      AddShareAt(before, s, id, x, y);
    }
    SameMap(after, AddShare(before, s));
  }

  lemma SameMap<K, V>(a: map<K, V>, b: map<K, V>)
    requires a.Keys == b.Keys && forall k :: k in a ==> a[k] == b[k]
    ensures a == b
  {
  }

  lemma {:induction false} NoShares(shares: seq<MinerShare>, id: MinerId)
    requires id !in ShareIds(shares)
    ensures OwnDifficulty(shares, id) == 0
  {
    if shares != [] {
      NoShares(shares[..|shares| - 1], id);
      assert MinerShares(shares, id) == MinerShares(shares[..|shares| - 1], id);
    }
  }

  /** The entries of a map from most to least; how equal ones are ordered is left to the sort. */
  ghost predicate Ranking(totals: map<MinerId, nat>, ranked: seq<(MinerId, nat)>) {
    && multiset(ranked) == multiset(totals.Items)
    && forall i, j :: 0 <= i < j < |ranked| ==> ranked[j].1 <= ranked[i].1
  }

  /** `take(limit)` */
  function TopMiners(ranked: seq<(MinerId, nat)>, limit: nat): seq<(MinerId, nat)> {
    ranked[..Min(limit, |ranked|)]
  }

  lemma RankedEntry(totals: map<MinerId, nat>, ranked: seq<(MinerId, nat)>, id: MinerId, n: nat)
    requires Ranking(totals, ranked)
    ensures (id, n) in ranked <==> id in totals && totals[id] == n
  {
    assert (id, n) in ranked <==> (id, n) in multiset(ranked);
    assert (id, n) in multiset(totals.Items) <==> (id, n) in totals.Items;
  }

  lemma RankedLength(totals: map<MinerId, nat>, ranked: seq<(MinerId, nat)>)
    requires Ranking(totals, ranked)
    ensures |ranked| == |totals.Keys|
  {
    assert |ranked| == |multiset(ranked)| == |totals.Items| == |totals|;
  }

  lemma UnlistedIsLower(ranked: seq<(MinerId, nat)>, limit: nat, e: (MinerId, nat), f: (MinerId, nat))
    requires forall i, j :: 0 <= i < j < |ranked| ==> ranked[j].1 <= ranked[i].1
    requires e in TopMiners(ranked, limit) && f in ranked && f !in TopMiners(ranked, limit)
    ensures f.1 <= e.1
  {
    var top := TopMiners(ranked, limit);
    var j :| 0 <= j < |ranked| && ranked[j] == f;
    var i :| 0 <= i < |top| && top[i] == e;
    assert ranked[i] == e;
  }

  /**
   Whatever ranking the sort produces, `get_top_miners` lists min(limit, miners)
   miners with their own u64 sums, and no miner it leaves out has more than one it lists.
   */
  lemma TopMinersAreTop(shares: seq<MinerShare>, ranked: seq<(MinerId, nat)>, limit: nat)
    requires Ranking(Totals(shares, ShareIds(shares)), ranked)
    ensures |TopMiners(ranked, limit)| == Min(limit, |ShareIds(shares)|)
    ensures forall e :: e in TopMiners(ranked, limit) ==> e.0 in ShareIds(shares) && e.1 == OwnTotal(shares, e.0)
    ensures forall e, id :: e in TopMiners(ranked, limit) && id in ShareIds(shares)
              && (id, OwnTotal(shares, id)) !in TopMiners(ranked, limit)
              ==> OwnTotal(shares, id) <= e.1
  {
    var totals, top := Totals(shares, ShareIds(shares)), TopMiners(ranked, limit);
    assert totals.Keys == ShareIds(shares);
    RankedLength(totals, ranked);
    forall e | e in top
      ensures e.0 in ShareIds(shares) && e.1 == OwnTotal(shares, e.0)
    {
      RankedEntry(totals, ranked, e.0, e.1);
    }
    forall e, id | e in top && id in ShareIds(shares) && (id, OwnTotal(shares, id)) !in top
      ensures OwnTotal(shares, id) <= e.1
    {
      RankedEntry(totals, ranked, id, OwnTotal(shares, id));
      UnlistedIsLower(ranked, limit, e, (id, OwnTotal(shares, id)));
    }
  }
}
