/**
 The halving schedule.  `RewardCalculator::calculate_base_reward` and
 `RewardDistributionManager::calculate_block_reward` are the same function of
 base reward, interval and height; both divide by the interval, so it is positive.
 */
module Emission {

  import opened Arithmetic
  import opened Words
  import opened Sums

  const MAX_HALVINGS: nat := 64

  function BlockReward(base: u128, interval: u64, height: nat): u128
    requires interval > 0
  {
    var halvings := height / interval;
    if halvings >= MAX_HALVINGS then 0 else EraReward(base, halvings)
  }

  /** `base >> halvings` */
  function EraReward(base: u128, halvings: nat): (r: u128)
    ensures r <= base
  {
    DivAntitone(base, 1, Pow2(halvings));
    Shr(base, halvings)
  }

  predicate IsHalvingBlock(interval: u64, height: nat)
    requires interval > 0
  {
    height > 0 && height % interval == 0
  }

  /** The first halving height above a height, as an unbounded number. */
  function HalvingAbove(interval: u64, height: nat): nat
    requires interval > 0
  {
    (height / interval + 1) * interval
  }

  /** `get_next_halving_height`; the product of u64 values wraps. */
  function NextHalvingHeight(interval: u64, height: u64): u64
    requires interval > 0
  {
    HalvingAbove(interval, height) % U64_MOD
  }

  /** `blocks_until_halving`; the difference wraps. */
  function BlocksUntilHalving(interval: u64, height: u64): u64
    requires interval > 0
  {
    (NextHalvingHeight(interval, height) + U64_MOD - height) % U64_MOD
  }

  /** This is the first halving block above the height. */
  ghost predicate IsNextHalving(interval: u64, height: nat, next: nat)
    requires interval > 0
  {
    && height < next && IsHalvingBlock(interval, next)
    && forall h :: height < h < next ==> !IsHalvingBlock(interval, h)
  }

  lemma HalvingAboveIsNext(interval: u64, height: nat)
    requires interval > 0
    ensures IsNextHalving(interval, height, HalvingAbove(interval, height))
    ensures HalvingAbove(interval, height) <= height + interval
  {
    DivMod(height, interval);
    var q := height / interval;
    Distribute(q, 1, interval);
    DivUnique((q + 1) * interval, interval, q + 1, 0);
    forall h | height < h < (q + 1) * interval
      ensures !IsHalvingBlock(interval, h)
    {
      DivUnique(h, interval, q, h - q * interval);
    }
  }

  /** The answer is the next halving block if and only if that block's height fits u64. */
  lemma NextHalvingIsFirstIff(interval: u64, height: u64)
    requires interval > 0
    ensures IsNextHalving(interval, height, NextHalvingHeight(interval, height)) <==>
      (height / interval + 1) * interval < U64_MOD
  {
    HalvingAboveIsNext(interval, height);
    WrappedHeight(HalvingAbove(interval, height), height, interval);
  }

  lemma WrappedHeight(next: nat, height: u64, interval: u64)
    requires height < next <= height + interval
    ensures next % U64_MOD == if next < U64_MOD then next else next - U64_MOD
    ensures next >= U64_MOD ==> next % U64_MOD < height
  {
  }

  /** The distance is right even where the height is not, as both differences wrap alike. */
  lemma BlocksUntilHalvingIsDistance(interval: u64, height: u64)
    requires interval > 0
    ensures BlocksUntilHalving(interval, height) == HalvingAbove(interval, height) - height
    ensures IsNextHalving(interval, height, height + BlocksUntilHalving(interval, height))
  {
    HalvingAboveIsNext(interval, height);
    WrappedHeight(HalvingAbove(interval, height), height, interval);
  }

  /** The reward is constant up to the next halving height, where it halves (or ends, after 64 halvings). */
  lemma RewardByEra(base: u128, interval: u64, height: nat, h: nat)
    requires interval > 0 && height <= h <= HalvingAbove(interval, height)
    ensures h < HalvingAbove(interval, height) ==>
      BlockReward(base, interval, h) == BlockReward(base, interval, height)
    ensures h == HalvingAbove(interval, height) ==>
      BlockReward(base, interval, h) ==
        if height / interval + 1 >= MAX_HALVINGS then 0 else BlockReward(base, interval, height) / 2
  {
    DivMod(height, interval);
    var q := height / interval;
    Distribute(q, 1, interval);
    if h < (q + 1) * interval {
      DivUnique(h, interval, q, h - q * interval);
    } else {
      DivUnique(h, interval, q + 1, 0);
      HalveTwice(base, q);
    }
  }

  lemma HalveTwice(base: u128, k: nat)
    ensures EraReward(base, k + 1) == EraReward(base, k) / 2
  {
    var p := Pow2(k);
    var q := base / p;
    DivMod(base, p);
    Associate(q / 2, 2, p);
    if q % 2 == 0 {
      assert q == q / 2 * 2;
      DivUnique(base, 2 * p, q / 2, base % p);
    } else {
      assert q == q / 2 * 2 + 1;
      Distribute(q / 2 * 2, 1, p);
      DivUnique(base, 2 * p, q / 2, p + base % p);
    }
  }

  /** Rewards never rise with height. */
  lemma RewardNonIncreasing(base: u128, interval: u64, h: nat, h': nat)
    requires interval > 0 && h <= h'
    ensures BlockReward(base, interval, h') <= BlockReward(base, interval, h)
  {
    DivMono(h, h', interval);
    if h' / interval < MAX_HALVINGS {
      Pow2Mono(h / interval, h' / interval);
      DivAntitone(base, Pow2(h / interval), Pow2(h' / interval));
    }
  }

  /** Nothing is paid from height 64 * interval on. */
  lemma RewardEnds(base: u128, interval: u64, height: nat)
    requires interval > 0 && height >= MAX_HALVINGS * interval
    ensures BlockReward(base, interval, height) == 0
  {
    DivGreatest(height, interval, MAX_HALVINGS);
  }

  // ---------------------------------------------------------------- the emission cap

  /** The reward of era k, zero once the halvings are over. */
  function Era(base: u128, k: nat): u128 {
    if k >= MAX_HALVINGS then 0 else EraReward(base, k)
  }

  lemma EraHalves(base: u128, k: nat)
    ensures 2 * Era(base, k + 1) <= Era(base, k)
  {
    HalveTwice(base, k);
  }

  /** All rewards below height n. */
  function Emitted(base: u128, interval: u64, n: nat): nat
    requires interval > 0
  {
    if n == 0 then 0 else Emitted(base, interval, n - 1) + BlockReward(base, interval, n - 1)
  }

  /** What is emitted, plus what the present era could still pay twice over, stays below 2 * base * interval. */
  lemma {:induction false} EmissionPotential(base: u128, interval: u64, n: nat, k: nat, j: nat)
    requires j < interval && n == k * interval + j
    ensures Emitted(base, interval, n) + (2 * interval - j) * Era(base, k) <= 2 * interval * base
    decreases n
  {
    if j > 0 {
      EmissionPotential(base, interval, n - 1, k, j - 1);
      NextEmitted(base, interval, n - 1, k, j - 1);
      Distribute(2 * interval - j, 1, Era(base, k));
    } else if k > 0 {
      Distribute(k, -1, interval);
      EmissionPotential(base, interval, n - 1, k - 1, interval - 1);
      NextEmitted(base, interval, n - 1, k - 1, interval - 1);
      EraHalves(base, k - 1);
      LastBlockOfEra(interval, Era(base, k - 1), Era(base, k));
    } else {
      assert EraReward(base, 0) == base;
    }
  }

  lemma NextEmitted(base: u128, interval: u64, n: nat, k: nat, j: nat)
    requires j < interval && n == k * interval + j
    ensures Emitted(base, interval, n + 1) == Emitted(base, interval, n) + Era(base, k)
  {
    DivUnique(n, interval, k, j);
  }

  lemma LastBlockOfEra(interval: nat, e: nat, e': nat)
    requires interval > 0 && 2 * e' <= e
    ensures e + 2 * interval * e' <= (2 * interval - (interval - 1)) * e
  {
    MulMono(2 * e', e, interval);
    Distribute(interval, 1, e);
    assert 2 * interval * e' == (2 * e') * interval;
  }

  lemma EmissionBelowCap(base: u128, interval: u64, n: nat)
    requires interval > 0
    ensures Emitted(base, interval, n) <= 2 * interval * base
  {
    DivMod(n, interval);
    EmissionPotential(base, interval, n, n / interval, n % interval);
    MulMono(0, 2 * interval - n % interval, Era(base, n / interval));
  }

  ghost function Rewards(base: u128, interval: u64, heights: set<nat>): map<nat, nat>
    requires interval > 0
  {
    map h | h in heights :: BlockReward(base, interval, h)
  }

  lemma RewardsWithout(base: u128, interval: u64, heights: set<nat>, h: nat)
    requires interval > 0 && h in heights
    ensures SumMap(Rewards(base, interval, heights))
      == BlockReward(base, interval, h) + SumMap(Rewards(base, interval, heights - {h}))
  {
    SumMapRemove(Rewards(base, interval, heights), h);
    assert Rewards(base, interval, heights) - {h} == Rewards(base, interval, heights - {h});
  }

  lemma {:induction false} SetBelowPrefix(base: u128, interval: u64, heights: set<nat>, n: nat)
    requires interval > 0 && forall h :: h in heights ==> h < n
    ensures SumMap(Rewards(base, interval, heights)) <= Emitted(base, interval, n)
    decreases n
  {
    if n == 0 {
      assert Rewards(base, interval, heights) == map[];
    } else if n - 1 in heights {
      SetBelowPrefix(base, interval, heights - {n - 1}, n - 1);
      RewardsWithout(base, interval, heights, n - 1);
    } else {
      SetBelowPrefix(base, interval, heights, n - 1);
    }
  }

  /** Whatever distinct heights are rewarded, in all they earn at most twice the base reward of one interval. */
  lemma EmissionCap(base: u128, interval: u64, heights: set<nat>)
    requires interval > 0
    ensures SumMap(Rewards(base, interval, heights)) <= 2 * interval * base
  {
    var n := Bound(heights);
    SetBelowPrefix(base, interval, heights, n);
    EmissionBelowCap(base, interval, n);
  }

  lemma {:induction false} Bound(heights: set<nat>) returns (n: nat)
    ensures forall h :: h in heights ==> h < n
  {
    if heights == {} {
      n := 0;
    } else {
      var h :| h in heights;
      var m := Bound(heights - {h});
      n := Max(m, h + 1);
      assert heights == (heights - {h}) + {h};
    }
  }
}
