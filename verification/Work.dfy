/** Work packages and proofs of work (src/work.rs). */
module Work {

  import Arithmetic
  import opened Words
  import opened Outcomes
  import opened Targets
  import opened Encoding

  /** SHA-512 (FIPS 180-4, section 6.4) as a function about which nothing else is known. */
  type Sha512 = seq<Byte> -> Digest

  datatype WorkPackage = WorkPackage(
    workId: seq<Byte>,
    chainId: u32,
    blockHeight: u64,
    blockHash: seq<Byte>,
    parentHash: seq<Byte>,
    merkleRoot: seq<Byte>,
    timestamp: u64,
    difficulty: u64,
    target: seq<Byte>,
    version: u32,
    extraNonce: u64)

  datatype WorkProof = WorkProof(
    workId: seq<Byte>,
    chainId: u32,
    blockHeight: u64,
    nonce: u64,
    extraNonce: u64,
    blockHash: seq<Byte>,
    hashResult: seq<Byte>,
    timestamp: u64,
    minerAddress: seq<Byte>,
    difficultyAchieved: u64)

  // ---------------------------------------------------------------- the target of a work package

  /** Byte i of the target for a difficulty whose floor-log2 is k. */
  function WorkTargetByte(k: nat, i: nat): Byte
    requires k < 64 && i < 64
  {
    var zeroed, shift := (64 - k) / 8, (64 - k) % 8;
    if i >= 64 - zeroed then 0
    else if zeroed > 0 && shift > 0 && i == 63 - zeroed then PartialMask(shift)
    else 255
  }

  function TargetForLog(k: nat): (t: Digest)
    requires k < 64
    ensures forall i :: 0 <= i < 64 ==> t[i] == WorkTargetByte(k, i)
  {
    seq(64, i requires 0 <= i < 64 => WorkTargetByte(k, i))
  }

  /** The target `WorkPackage::calculate_target_from_difficulty` builds. */
  function WorkTarget(difficulty: u64): Digest
    requires difficulty > 0
  {
    if difficulty == 1 then Repeat(255, 64)
    else FloorLog2OfU64(difficulty); TargetForLog(FloorLog2(difficulty))
  }

  /** `0xFF >> s` */
  lemma ShiftedOnes(s: nat)
    requires 0 < s < 8
    ensures 255 / Pow2(s) == PartialMask(s)
  {
    Pow2Byte();
    Pow2Add(s, 8 - s);
    Arithmetic.DivUnique(255, Pow2(s), Pow2(8 - s) - 1, Pow2(s) - 1);
  }

  method CalculateWorkTarget(difficulty: u64) returns (r: Result<Digest, PoWError>)
    ensures r == if difficulty == 0 then Err(InvalidDifficulty) else Ok(WorkTarget(difficulty))
  {
    if difficulty == 0 {
      return Err(InvalidDifficulty);
    }
    var target := new Byte[64](_ => 255);
    if difficulty > 1 {
      FloorLog2OfU64(difficulty);
      var k := FloorLog2(difficulty);
      var bitsToShift := if k <= 64 then 64 - k else 0;
      var bytesToZero := bitsToShift / 8;  // at most 8: the branch for 64 and more is never taken
      if bytesToZero < 64 {
        for j := 0 to bytesToZero
          invariant forall i :: 0 <= i < 64 ==>
            target[i] == if 64 - bytesToZero <= i < 64 - bytesToZero + j then 0 else 255
        {
          target[64 - bytesToZero + j] := 0;
        }
        ghost var zeroed := target[..];
        if bytesToZero > 0 {
          var bitShift := bitsToShift % 8;
          if bitShift > 0 {
            ShiftedOnes(bitShift);
            target[64 - bytesToZero - 1] := 255 / Pow2(bitShift);
            assert target[..] == zeroed[64 - bytesToZero - 1 := PartialMask(bitShift)];
          }
        }
        TargetBytes(k, zeroed);
      }
    } else {
      assert target[..] == Repeat(255, 64);
    }
    return Ok(target[..]);
  }

  /** Zero bytes at the end and, if some bits remain, one boundary byte before them. */
  lemma TargetBytes(k: nat, zeroed: seq<Byte>)
    requires k < 64 && |zeroed| == 64
    requires forall i :: 0 <= i < 64 ==> zeroed[i] == if 64 - (64 - k) / 8 <= i then 0 else 255
    ensures var z, s := (64 - k) / 8, (64 - k) % 8;
            TargetForLog(k) == if z > 0 && s > 0 then zeroed[63 - z := PartialMask(s)] else zeroed
  {
  }

  lemma FirstDifferenceDecides(a: seq<Byte>, b: seq<Byte>, i: nat)
    requires i < |a| && i < |b| && a[..i] == b[..i] && a[i] < b[i]
    ensures SliceLe(a, b) && !SliceLe(b, a)
  {
    if i > 0 {
      assert a[0] == a[..i][0] && b[0] == b[..i][0];
      assert a[1..][..i - 1] == a[..i][1..] && b[1..][..i - 1] == b[..i][1..];
      FirstDifferenceDecides(a[1..], b[1..], i - 1);
    }
  }

  lemma {:induction false} SliceLeReflexive(a: seq<Byte>)
    ensures SliceLe(a, a)
  {
    if a != [] {
      SliceLeReflexive(a[1..]);
    }
  }

  /** The first byte in which the targets for two logs differ. */
  function FirstChangedByte(j: nat): nat
    requires j < 57
  {
    var zeroed := (64 - j) / 8;
    if (64 - j) % 8 > 0 then 63 - zeroed else 64 - zeroed
  }

  /** Before it both targets are all ones. */
  lemma UnchangedBytes(k: nat, i: nat)
    requires k < 64 && i + (64 - k) / 8 < if (64 - k) % 8 > 0 then 63 else 64
    ensures WorkTargetByte(k, i) == 255
  {
  }

  lemma FewerBytesBefore(j: nat, k: nat)
    requires j < k < 64
    ensures (64 - k) / 8 <= (64 - j) / 8
    ensures (64 - k) / 8 == (64 - j) / 8 ==> (64 - k) % 8 < (64 - j) % 8
  {
  }

  lemma ChangedByte(j: nat, k: nat)
    requires j < k < 64 && j < 57
    ensures WorkTargetByte(j, FirstChangedByte(j)) < WorkTargetByte(k, FirstChangedByte(j))
  {
    var zj, zk, sj, sk := (64 - j) / 8, (64 - k) / 8, (64 - j) % 8, (64 - k) % 8;
    FewerBytesBefore(j, k);
    if sj > 0 {
      if sk > 0 && zk == zj {
        Pow2Strict(8 - sj, 8 - sk);
      }
    }
  }

  /** Between two logs this target grows, strictly when the lower log is below 57. */
  lemma TargetForLogGrows(j: nat, k: nat)
    requires j < k < 64
    ensures j < 57 ==> SliceLe(TargetForLog(j), TargetForLog(k)) && !SliceLe(TargetForLog(k), TargetForLog(j))
    ensures j >= 57 ==> TargetForLog(j) == TargetForLog(k)
  {
    if j < 57 {
      var f := FirstChangedByte(j);
      var a, b := TargetForLog(j), TargetForLog(k);
      forall i | 0 <= i <= f
        ensures i < f ==> a[i] == b[i]
      {
        if i < f {
          FewerBytesBefore(j, k);
          UnchangedBytes(j, i);
          UnchangedBytes(k, i);
        }
      }
      ChangedByte(j, k);
      FirstDifferenceDecides(a, b, f);
    }
  }

  /**
   The promise "higher difficulty = lower target" (src/work.rs:109) holds for a
   pair of difficulties exactly when the lower one is 1 or at least 2^57, or both
   have the same bit length.
   */
  lemma WorkTargetAntitoneIff(c: u64, d: u64)
    requires 0 < c <= d
    ensures SliceLe(WorkTarget(d), WorkTarget(c)) <==>
      c == 1 || c >= Pow2(57) || FloorLog2(c) == FloorLog2(d)
  {
    SliceLeReflexive(WorkTarget(c));
    LogAtLeast(c, 57);
    if c == 1 {
      BelowAllOnes(WorkTarget(d));
    } else {
      FloorLog2OfU64(d);
      FloorLog2Mono(c, d);
      if FloorLog2(c) < FloorLog2(d) {
        TargetForLogGrows(FloorLog2(c), FloorLog2(d));
      }
    }
  }

  lemma LogAtLeast(c: nat, k: nat)
    requires c > 0
    ensures FloorLog2(c) >= k <==> c >= Pow2(k)
  {
    if FloorLog2(c) < k {
      Pow2Mono(FloorLog2(c) + 1, k);
    } else {
      Pow2Mono(k, FloorLog2(c));
    }
  }

  lemma BelowAllOnes(a: Digest)
    ensures SliceLe(a, Repeat(255, 64))
  {
    LexIsNumeric(a, Repeat(255, 64));
    BEBound(a);
    BEOfOnes(64);
  }

  /** The bytes of a work target above its z cleared ones, when b bits of the last of them are lost as well. */
  function TargetHead(z: nat, b: nat): nat
    requires z < 64 && b < 8
  {
    Pow2Mono(8, 8 * (64 - z));
    Pow2Byte();
    if z > 0 && b > 0 then Pow2(8 * (64 - z)) - 256 + (Pow2(8 - b) - 1) else Pow2(8 * (64 - z)) - 1
  }

  /**
   The number a work target denotes.  With s = 64 - floor(log2 d) bits to shift, the
   lowest s / 8 bytes are cleared, and the byte above them, if one was cleared,
   loses its s % 8 high bits.
   */
  lemma WorkTargetValue(d: u64)
    requires d > 1
    ensures FloorLog2(d) < 64
    ensures var s := 64 - FloorLog2(d);
            BE(WorkTarget(d)) == TargetHead(s / 8, s % 8) * Pow2(8 * (s / 8))
  {
    FloorLog2OfU64(d);
    LogTargetValue(FloorLog2(d));
  }

  lemma LogTargetValue(k: nat)
    requires 0 < k < 64
    ensures BE(TargetForLog(k)) == TargetHead((64 - k) / 8, (64 - k) % 8) * Pow2(8 * ((64 - k) / 8))
  {
    var z, b := (64 - k) / 8, (64 - k) % 8;
    var head := TargetBytesAbove(k, z, b);
    AppendZeros(head, z);
  }

  lemma TargetBytesAbove(k: nat, z: nat, b: nat) returns (head: seq<Byte>)
    requires 0 < k < 64 && z == (64 - k) / 8 && b == (64 - k) % 8
    ensures TargetForLog(k) == head + Repeat(0, z) && BE(head) == TargetHead(z, b)
  {
    if z > 0 && b > 0 {
      head := Repeat(255, 63 - z) + [PartialMask(b)];
      OnesByte(63 - z, PartialMask(b));
      assert 8 * (63 - z) + 8 == 8 * (64 - z);
    } else {
      head := Repeat(255, 64 - z);
      BEOfOnes(64 - z);
    }
  }

  lemma AppendZeros(s: seq<Byte>, zeros: nat)
    ensures BE(s + Repeat(0, zeros)) == BE(s) * Pow2(8 * zeros)
  {
    BEConcat(s, Repeat(0, zeros));
    BEOfZeros(zeros);
  }

  lemma OnesByte(ones: nat, m: Byte)
    ensures BE(Repeat(255, ones) + [m]) == Pow2(8 * ones + 8) - 256 + m
  {
    BEConcat(Repeat(255, ones), [m]);
    BEOfOnes(ones);
    Pow2Byte();
    Pow2Add(8 * ones, 8);
    assert [m][1..] == [];
  }

  // ---------------------------------------------------------------- packages and proofs

  /** `WorkPackage::new` */
  function NewWorkPackage(sha: Sha512, chainId: u32, blockHeight: u64, blockHash: seq<Byte>, parentHash: seq<Byte>,
                          merkleRoot: seq<Byte>, timestamp: u64, difficulty: u64): Result<WorkPackage, PoWError>
  {
    if difficulty == 0 then Err(InvalidDifficulty)
    else if chainId >= 20 then Err(InvalidDifficulty)
    else if |blockHash| != 64 then Err(InvalidDifficulty)
    else if |parentHash| != 64 then Err(InvalidDifficulty)
    else if |merkleRoot| != 64 then Err(InvalidDifficulty)
    else
      var workId := sha(LE(chainId, 4) + LE(blockHeight, 8) + blockHash + LE(timestamp, 8));
      Ok(WorkPackage(workId, chainId, blockHeight, blockHash, parentHash, merkleRoot, timestamp, difficulty,
                     WorkTarget(difficulty), 1, 0))
  }

  /** `WorkPackage::get_header_for_hashing` */
  function HeaderForHashing(w: WorkPackage): seq<Byte> {
    LE(w.version, 4) + w.parentHash + w.merkleRoot + LE(w.timestamp, 8) + LE(w.difficulty, 8)
    + LE(w.chainId, 4) + LE(w.blockHeight, 8)
  }

  /** `WorkProofBuilderPow::build` */
  function BuildProof(workId: seq<Byte>, chainId: u32, blockHeight: u64, nonce: u64, extraNonce: u64,
                      blockHash: seq<Byte>, hashResult: seq<Byte>, timestamp: u64, minerAddress: seq<Byte>)
    : Result<WorkProof, PoWError>
  {
    if |hashResult| != 64 then Err(InvalidWorkProof)
    else if minerAddress == [] then Err(InvalidWorkProof)
    else Ok(WorkProof(workId, chainId, blockHeight, nonce, extraNonce, blockHash, hashResult, timestamp,
                      minerAddress, AchievedDifficulty(hashResult)))
  }

  /** `WorkProof::verify` */
  function Verify(proof: WorkProof, target: seq<Byte>): Result<bool, PoWError> {
    if |proof.hashResult| != 64 then Err(InvalidWorkProof)
    else if |target| != 64 then Err(InvalidWorkProof)
    else Ok(SliceLe(proof.hashResult, target))
  }

  // ---------------------------------------------------------------- what the calls answer

  /** A proof that builds holds the caller's arguments and the difficulty its hash shows. */
  lemma BuildProofOutcome(workId: seq<Byte>, chainId: u32, blockHeight: u64, nonce: u64, extraNonce: u64,
                          blockHash: seq<Byte>, hashResult: seq<Byte>, timestamp: u64, minerAddress: seq<Byte>)
    ensures var r := BuildProof(workId, chainId, blockHeight, nonce, extraNonce, blockHash, hashResult, timestamp,
                                minerAddress);
            && (|hashResult| != 64 || minerAddress == [] ==> r == Err(InvalidWorkProof))
            && (|hashResult| == 64 && minerAddress != [] ==>
                  r == Ok(WorkProof(workId, chainId, blockHeight, nonce, extraNonce, blockHash, hashResult, timestamp,
                                    minerAddress, AchievedDifficulty(hashResult))))
  {
  }

  /** Verification compares the claimed hash with the target as numbers, and wants both to have 64 bytes. */
  lemma VerifyOutcome(proof: WorkProof, target: seq<Byte>)
    ensures |proof.hashResult| != 64 || |target| != 64 ==> Verify(proof, target) == Err(InvalidWorkProof)
    ensures |proof.hashResult| == 64 && |target| == 64 ==>
      Verify(proof, target) == Ok(BE(proof.hashResult) <= BE(target))
  {
    if |proof.hashResult| == 64 && |target| == 64 {
      LexIsNumeric(proof.hashResult, target);
    }
  }

  /** The bytes that are hashed, field by field. */
  lemma HeaderLayout(w: WorkPackage)
    requires |w.parentHash| == 64 && |w.merkleRoot| == 64
    ensures var b := HeaderForHashing(w);
            && |b| == 160
            && b[0..4] == LE(w.version, 4) && b[4..68] == w.parentHash && b[68..132] == w.merkleRoot
            && b[132..140] == LE(w.timestamp, 8) && b[140..148] == LE(w.difficulty, 8)
            && b[148..152] == LE(w.chainId, 4) && b[152..160] == LE(w.blockHeight, 8)
  {
  }
}
