/**
 "This hash is hard enough", in the three forms the crate uses: a 64-byte mask
 target compared byte by byte, a count of leading zero bits, and the power of
 two that a hash is said to achieve.
 */
module Targets {

  import opened Arithmetic
  import opened Words
  import opened Outcomes

  const HASH_BYTES: nat := 64
  const HASH_BITS: nat := 8 * HASH_BYTES

  /** A SHA-512 digest. */
  type Digest = h: seq<Byte> | |h| == HASH_BYTES witness Repeat(0, HASH_BYTES)

  // ---------------------------------------------------------------- the mask target

  /** `(1u8 << (8 - r)) - 1` */
  function PartialMask(r: nat): (m: Byte)
    requires 0 < r < 8
    ensures 0 < m < 255
  {
    Pow2Byte();
    Pow2Strict(0, 8 - r);
    Pow2Strict(8 - r, 8);
    Pow2(8 - r) - 1
  }

  function MaskByte(k: nat, i: nat): Byte {
    if i < k / 8 then 0 else if i == k / 8 && k % 8 > 0 then PartialMask(k % 8) else 255
  }

  /** The 64-byte target with `k` leading zero bits and ones after them. */
  function MaskTarget(k: nat): (t: Digest)
    requires k < HASH_BITS
    ensures forall i :: 0 <= i < HASH_BYTES ==> t[i] == MaskByte(k, i)
  {
    seq(HASH_BYTES, i requires 0 <= i < HASH_BYTES => MaskByte(k, i))
  }

  /**
   `BlockValidator::calculate_target_from_difficulty`; the pool fills its
   `target_bytes` with the same statements.
   */
  method CalculateTarget(difficulty: u64) returns (r: Result<Digest, PoWError>)
    ensures r.Err? <==> difficulty == 0
    ensures r.Err? ==> r.error == InvalidDifficulty
    ensures r.Ok? ==> FloorLog2(difficulty) < 64 && r.value == MaskTarget(FloorLog2(difficulty))
  {
    if difficulty == 0 {
      return Err(InvalidDifficulty);
    }
    FloorLog2OfU64(difficulty);
    var target := FillTarget(FloorLog2(difficulty));
    return Ok(target);
  }

  /** The statements that fill the target. */
  method FillTarget(leadingZeroBits: nat) returns (t: Digest)
    requires leadingZeroBits < 64
    ensures t == MaskTarget(leadingZeroBits)
  {
    var leadingZeroBytes := leadingZeroBits / 8;
    var remainingBits := leadingZeroBits % 8;
    var target := new Byte[HASH_BYTES](_ => 255);
    for i := 0 to Min(leadingZeroBytes, 64)
      invariant forall j :: 0 <= j < HASH_BYTES ==> target[j] == if j < i then 0 else 255
    {
      target[i] := 0;
    }
    ghost var zeroed := target[..];
    if remainingBits > 0 && leadingZeroBytes < 64 {
      target[leadingZeroBytes] := PartialMask(remainingBits);
      assert target[..] == zeroed[leadingZeroBytes := PartialMask(remainingBits)];
    }
    MaskTargetBytes(leadingZeroBits, zeroed);
    t := target[..];
  }

  /** Zero bytes in front and, if some bits remain, one boundary byte. */
  lemma MaskTargetBytes(k: nat, zeroed: seq<Byte>)
    requires k < HASH_BITS && |zeroed| == HASH_BYTES
    requires forall i :: 0 <= i < HASH_BYTES ==> zeroed[i] == if i < k / 8 then 0 else 255
    ensures MaskTarget(k) == if k % 8 > 0 then zeroed[k / 8 := PartialMask(k % 8)] else zeroed
  {
  }

  /** Read big-endian, the mask target for k zero bits is 2^(512-k) - 1. */
  lemma MaskTargetValue(k: nat)
    requires k < HASH_BITS
    ensures BE(MaskTarget(k)) == Pow2(HASH_BITS - k) - 1
  {
    var z, r := k / 8, k % 8;
    Pow2Byte();
    var m: Byte := if r > 0 then PartialMask(r) else 255;
    MaskTargetShape(k, m);
    MaskedValue(z, m, 63 - z, 8 - r);
    assert 8 - r + 8 * (63 - z) == HASH_BITS - k;
  }

  lemma MaskTargetShape(k: nat, m: Byte)
    requires k < HASH_BITS && m == if k % 8 > 0 then PartialMask(k % 8) else 255
    ensures MaskTarget(k) == Repeat(0, k / 8) + ([m] + Repeat(255, 63 - k / 8))
  {
  }

  lemma MaskedValue(zeros: nat, m: Byte, ones: nat, bits: nat)
    requires m == Pow2(bits) - 1
    ensures BE(Repeat(0, zeros) + ([m] + Repeat(255, ones))) == Pow2(bits + 8 * ones) - 1
  {
    var tail := Repeat(255, ones);
    BEConcat(Repeat(0, zeros), [m] + tail);
    BEOfZeros(zeros);
    assert ([m] + tail)[1..] == tail;
    BEOfOnes(ones);
    Pow2Add(bits, 8 * ones);
    Distribute(Pow2(bits), 1, Pow2(8 * ones));
  }

  // ---------------------------------------------------------------- leading zero bits

  /** `u8::leading_zeros` */
  function LeadingZeros8(b: Byte): nat {
    if b == 0 then 8 else ByteLog(b); 7 - FloorLog2(b)
  }

  lemma ByteLog(b: Byte)
    requires b > 0
    ensures FloorLog2(b) <= 7
  {
    Pow2Byte();
    if FloorLog2(b) >= 8 { Pow2Mono(8, FloorLog2(b)); }
  }

  function LeadingZeroBits(h: seq<Byte>): nat {
    if h == [] then 0
    else if h[0] == 0 then 8 + LeadingZeroBits(h[1..])
    else LeadingZeros8(h[0])
  }

  /** A byte string starts with k zero bits exactly when its number lies below 2^(bits-k). */
  lemma {:induction false} LeadingZerosIsMagnitude(h: seq<Byte>, k: nat)
    requires k <= 8 * |h|
    ensures LeadingZeroBits(h) >= k <==> BE(h) < Pow2(8 * |h| - k)
    decreases |h|
  {
    if h == [] {
      return;
    }
    var rest, n := h[1..], 8 * (|h| - 1);
    BEBound(rest);
    if h[0] == 0 {
      if k > 8 {
        LeadingZerosIsMagnitude(rest, k - 8);
      }
      ZeroByteBound(k, n, BE(rest), LeadingZeroBits(rest));
    } else {
      LeadingByteBound(h[0], k, n, BE(rest));
    }
  }

  /** A zero leading byte leaves the decision to the rest. */
  lemma ZeroByteBound(k: nat, n: nat, rest: nat, zeros: nat)
    requires k <= 8 + n && rest < Pow2(n)
    requires k > 8 ==> (zeros >= k - 8 <==> rest < Pow2(n - (k - 8)))
    ensures 8 + zeros >= k <==> rest < Pow2(8 + n - k)
  {
    if k <= 8 {
      Pow2Mono(n, 8 + n - k);
    } else {
      assert n - (k - 8) == 8 + n - k;
    }
  }

  /** A non-zero leading byte decides alone. */
  lemma LeadingByteBound(b: Byte, k: nat, n: nat, rest: nat)
    requires b > 0 && k <= 8 + n && rest < Pow2(n)
    ensures LeadingZeros8(b) >= k <==> b * Pow2(n) + rest < Pow2(8 + n - k)
  {
    if k <= 8 {
      LeadingByteDecides(b, k);
      Pow2Add(8 - k, n);
      LeadingDigitDecides(Pow2(8 - k), b, Pow2(n), 0, rest);
    } else {
      MulMono(1, b, Pow2(n));
      Pow2Mono(n + 8 - k, n);
      ByteLog(b);
    }
  }

  lemma LeadingByteDecides(b: Byte, k: nat)
    requires b > 0 && k <= 8
    ensures LeadingZeros8(b) >= k <==> b < Pow2(8 - k)
  {
    ByteLog(b);
    var l := FloorLog2(b);
    if l + 1 <= 8 - k {
      Pow2Mono(l + 1, 8 - k);
    } else {
      Pow2Mono(8 - k, l);
    }
  }

  /** The boundary byte bounds exactly the bytes that start with r zero bits. */
  lemma PartialMaskBits(r: nat, b: Byte)
    requires 0 < r < 8
    ensures b <= PartialMask(r) <==> LeadingZeros8(b) >= r
  {
    if b > 0 {
      LeadingByteDecides(b, r);
    }
  }

  // ---------------------------------------------------------------- difficulty of a hash

  /** The difficulty a hash achieves: 2 to its number of leading zero bits, saturated. */
  function AchievedDifficulty(h: Digest): u64 {
    var z := LeadingZeroBits(h);
    if z >= 64 then U64_MAX else Pow2Word(); Pow2Strict(z, 64); Pow2(z)
  }

  /** It is 2^z for the z with 2^(511-z) <= hash < 2^(512-z), and the u64 maximum for hashes below 2^448. */
  lemma AchievedIs(h: Digest) returns (z: nat)
    ensures if z < 64
            then Pow2(HASH_BITS - 1 - z) <= BE(h) < Pow2(HASH_BITS - z) && AchievedDifficulty(h) == Pow2(z)
            else BE(h) < Pow2(HASH_BITS - 64) && AchievedDifficulty(h) == 0xFFFF_FFFF_FFFF_FFFF
  {
    z := LeadingZeroBits(h);
    if z < 64 {
      LeadingZerosIsMagnitude(h, z);
      LeadingZerosIsMagnitude(h, z + 1);
    } else {
      LeadingZerosIsMagnitude(h, 64);
    }
  }

  /** `WorkProof::get_difficulty_from_hash` */
  method DifficultyFromHash(hash: seq<Byte>) returns (r: Result<u64, PoWError>)
    ensures r == if |hash| != 64 then Err(InvalidWorkProof) else Ok(AchievedDifficulty(hash))
  {
    if |hash| != 64 {
      return Err(InvalidWorkProof);
    }
    var leadingZeros := 0;
    var i := 0;
    while i < |hash|
      invariant 0 <= i <= |hash|
      invariant leadingZeros + LeadingZeroBits(hash[i..]) == LeadingZeroBits(hash)
    {
      if hash[i] == 0 {
        leadingZeros := leadingZeros + 8;
      } else {
        leadingZeros := leadingZeros + LeadingZeros8(hash[i]);
        break;
      }
      i := i + 1;
    }
    assert leadingZeros == LeadingZeroBits(hash);
    if leadingZeros >= 64 {
      return Ok(U64_MAX);
    } else {
      Pow2Word();
      Pow2Strict(leadingZeros, 64);
      return Ok(Pow2(leadingZeros));
    }
  }

  // ---------------------------------------------------------------- the three forms agree

  /** A hash meets the mask target for k zero bits exactly when its number lies below 2^(512-k). */
  lemma MaskTest(h: Digest, k: nat)
    requires k < HASH_BITS
    ensures SliceLe(h, MaskTarget(k)) <==> BE(h) < Pow2(HASH_BITS - k)
  {
    LexIsNumeric(h, MaskTarget(k));
    MaskTargetValue(k);
  }

  /**
   Comparing the hash with the mask target, counting its leading zero bits,
   comparing its number with 2^(512-k), and comparing the difficulty it achieves
   with 2^k are one and the same test, for every difficulty and every hash.
   */
  lemma HardnessAgreement(h: Digest, d: u64)
    requires d > 0
    ensures FloorLog2(d) < 64
    ensures var k := FloorLog2(d);
            && (SliceLe(h, MaskTarget(k)) <==> BE(h) < Pow2(HASH_BITS - k))
            && (SliceLe(h, MaskTarget(k)) <==> LeadingZeroBits(h) >= k)
            && (SliceLe(h, MaskTarget(k)) <==> AchievedDifficulty(h) >= Pow2(k))
  {
    FloorLog2OfU64(d);
    var k := FloorLog2(d);
    MaskTest(h, k);
    LeadingZerosIsMagnitude(h, k);
    AchievedAtLeast(h, k);
  }

  lemma AchievedAtLeast(h: Digest, k: nat)
    requires k < 64
    ensures AchievedDifficulty(h) >= Pow2(k) <==> LeadingZeroBits(h) >= k
  {
    var z := LeadingZeroBits(h);
    Pow2Word();
    Pow2Strict(k, 64);
    if z >= k {
      Pow2Mono(k, z);
    } else {
      Pow2Strict(z, k);
    }
  }

  /** The proof of work a hash achieves meets the mask target of that very difficulty. */
  lemma AchievedMeetsOwnTarget(h: Digest)
    ensures AchievedDifficulty(h) > 0
    ensures FloorLog2(AchievedDifficulty(h)) < 64
    ensures SliceLe(h, MaskTarget(FloorLog2(AchievedDifficulty(h))))
  {
    var z := LeadingZeroBits(h);
    var a := AchievedDifficulty(h);
    if z < 64 {
      FloorLog2Unique(a, z);
    } else {
      Pow2Word();
      assert Pow2(64) == 2 * Pow2(63);
      FloorLog2Unique(a, 63);
    }
    HardnessAgreement(h, a);
  }

  /** A higher difficulty never has a higher target: a hash that meets it meets every lower one. */
  lemma MaskTargetAntitone(c: u64, d: u64)
    requires 0 < c <= d
    ensures FloorLog2(c) < 64 && FloorLog2(d) < 64
    ensures SliceLe(MaskTarget(FloorLog2(d)), MaskTarget(FloorLog2(c)))
    ensures forall h: Digest :: SliceLe(h, MaskTarget(FloorLog2(d))) ==> SliceLe(h, MaskTarget(FloorLog2(c)))
  {
    FloorLog2OfU64(c);
    FloorLog2OfU64(d);
    FloorLog2Mono(c, d);
    forall h: Digest | SliceLe(h, MaskTarget(FloorLog2(d)))
      ensures SliceLe(h, MaskTarget(FloorLog2(c)))
    {
      EasierMask(h, FloorLog2(c), FloorLog2(d));
    }
    LexIsNumeric(MaskTarget(FloorLog2(d)), MaskTarget(FloorLog2(d)));
  }

  lemma EasierMask(h: Digest, j: nat, k: nat)
    requires j <= k < HASH_BITS && SliceLe(h, MaskTarget(k))
    ensures SliceLe(h, MaskTarget(j))
  {
    MaskTest(h, j);
    MaskTest(h, k);
    Pow2Mono(HASH_BITS - k, HASH_BITS - j);
  }
}
