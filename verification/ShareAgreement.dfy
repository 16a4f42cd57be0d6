/**
 The miner keeps a hash when its 512-bit number is at most (2^HASH_BITS - 1) divided by
 the difficulty; the pool and the block validator accept it when its bytes are at
 most a mask target.  When do the two tests agree?
 */
module ShareAgreement {

  import opened Arithmetic
  import opened Words
  import opened Targets
  import opened WideDivision

  /** `hash_u512 <= u512_max().div_u128(difficulty)` in the mining loop. */
  predicate MinerAccepts(h: Digest, difficulty: u128) {
    Le(FromBytes(h), Quotient(MAX, difficulty))
  }

  /** The pool's `hash_bytes <= target_bytes`. */
  predicate PoolAccepts(h: Digest, difficulty: u64)
    requires difficulty > 0
  {
    FloorLog2OfU64(difficulty);
    SliceLe(h, MaskTarget(FloorLog2(difficulty)))
  }

  lemma TargetBounds(d: u128)
    requires 0 < d <= U64_MOD
    ensures var q := Value(Quotient(MAX, d)); q * d < Pow2(HASH_BITS) <= (q + 1) * d
  {
    MaxQuotientExact(d);
    QuotientBounds(Pow2(HASH_BITS), d);
  }

  lemma QuotientBounds(p: nat, d: nat)
    requires p > 0 && d > 0
    ensures var q := (p - 1) / d; q * d < p <= (q + 1) * d
  {
    DivMod(p - 1, d);
    Distribute((p - 1) / d, 1, d);
  }

  lemma MinerTestOnNumbers(h: Digest, d: u128) returns (q: nat)
    requires 0 < d <= U64_MOD
    ensures q * d < Pow2(HASH_BITS) <= (q + 1) * d
    ensures MinerAccepts(h, d) <==> BE(h) <= q
  {
    q := Value(Quotient(MAX, d));
    LimbOrderIsNumeric(FromBytes(h), Quotient(MAX, d));
    FromBytesValue(h);
    TargetBounds(d);
  }

  lemma BelowQuotient(x: nat, p: nat, d: nat, q: nat)
    requires q * d < p <= (q + 1) * d
    ensures x <= q <==> x * d < p
  {
    if x <= q {
      MulMono(x, q, d);
    } else {
      MulMono(q + 1, x, d);
    }
  }

  /** The miner's test on machine words is the test `hash <= floor((2^HASH_BITS - 1) / d)` on numbers. */
  lemma MinerTest(h: Digest, d: u128)
    requires 0 < d <= U64_MOD
    ensures MinerAccepts(h, d) <==> BE(h) * d < Pow2(HASH_BITS)
  {
    var q := MinerTestOnNumbers(h, d);
    BelowQuotient(BE(h), Pow2(HASH_BITS), d, q);
  }

  lemma PoolTest(h: Digest, d: u64)
    requires d > 0
    ensures FloorLog2(d) < 64
    ensures PoolAccepts(h, d) <==> BE(h) * Pow2(FloorLog2(d)) < Pow2(HASH_BITS)
  {
    FloorLog2OfU64(d);
    MaskTest(h, FloorLog2(d));
    SplitHash(FloorLog2(d), BE(h));
  }

  lemma SplitHash(k: nat, x: nat)
    requires k < HASH_BITS
    ensures x < Pow2(HASH_BITS - k) <==> x * Pow2(k) < Pow2(HASH_BITS)
  {
    Pow2Add(HASH_BITS - k, k);
    ScaleLess(x, Pow2(HASH_BITS - k), Pow2(k));
  }

  /** Every share the miner submits at difficulty d passes the pool's check at every difficulty up to d. */
  lemma MinerShareIsAccepted(h: Digest, d: u64, poolDifficulty: u64)
    requires 0 < poolDifficulty <= d
    requires MinerAccepts(h, d)
    ensures PoolAccepts(h, poolDifficulty)
  {
    MinerTest(h, d);
    PoolTest(h, poolDifficulty);
    EasierProduct(BE(h), Pow2(FloorLog2(poolDifficulty)), d, Pow2(HASH_BITS));
  }

  lemma EasierProduct(x: nat, p: nat, d: nat, bound: nat)
    requires p <= d && x * d < bound
    ensures x * p < bound
  {
    MulMono(p, d, x);
  }

  predicate PowerOfTwo(d: nat)
    requires d > 0
  {
    d == Pow2(FloorLog2(d))
  }

  /** The two tests are the same test on every hash exactly when the difficulty is a power of two. */
  lemma TestsCoincideIff(d: u64)
    requires d > 0
    ensures (forall h: Digest :: MinerAccepts(h, d) <==> PoolAccepts(h, d)) <==> PowerOfTwo(d)
  {
    if PowerOfTwo(d) {
      forall h: Digest
        ensures MinerAccepts(h, d) <==> PoolAccepts(h, d)
      {
        MinerTest(h, d);
        PoolTest(h, d);
      }
    } else {
      MaskTargetIsRefused(d);
    }
  }

  /** At any other difficulty the mask target itself is a hash the pool takes and the miner throws away. */
  lemma MaskTargetIsRefused(d: u64)
    requires d > 0 && !PowerOfTwo(d)
    ensures FloorLog2(d) < 64
    ensures var t := MaskTarget(FloorLog2(d)); PoolAccepts(t, d) && !MinerAccepts(t, d)
  {
    FloorLog2OfU64(d);
    var k := FloorLog2(d);
    var t := MaskTarget(k);
    LexIsNumeric(t, t);
    MaskTargetValue(k);
    MinerTest(t, d);
    JustTooLarge(k, d);
  }

  lemma JustTooLarge(k: nat, d: nat)
    requires k < 64 && Pow2(k) < d
    ensures Pow2(HASH_BITS) <= (Pow2(HASH_BITS - k) - 1) * d
  {
    Pow2Add(HASH_BITS - k, k);
    Pow2Strict(k, HASH_BITS - k);
    ScaleOvershoots(Pow2(HASH_BITS - k), Pow2(k), d);
  }
}
