/**
 Proof-of-work validation of a block header (src/block_validator.rs), against the
 looser target that work packages and the consensus engine use (src/work.rs).
 */
module BlockValidator {

  import ShareAgreement
  import opened Words
  import opened Outcomes
  import opened Encoding
  import opened Targets
  import opened Work
  import opened Mining

  datatype BlockHeader = BlockHeader(
    version: u32,
    parentHash: seq<Byte>,
    merkleRoot: seq<Byte>,
    timestamp: u64,
    difficulty: u64,
    chainId: u32,
    blockHeight: u64,
    nonce: u64,
    extraNonce: u64)

  /** `BlockHeader::get_header_for_hashing` */
  function HeaderBytes(h: BlockHeader): seq<Byte> {
    LE(h.version, 4) + h.parentHash + h.merkleRoot + LE(h.timestamp, 8) + LE(h.difficulty, 8)
    + LE(h.chainId, 4) + LE(h.blockHeight, 8)
  }

  /** A header and a proof that speak of the same attempt. */
  predicate Matches(h: BlockHeader, proof: WorkProof) {
    && proof.nonce == h.nonce && proof.extraNonce == h.extraNonce
    && proof.chainId == h.chainId
    && proof.blockHeight == h.blockHeight
  }

  /** What the validator demands of a header and a proof. */
  ghost predicate ProofOfWorkHolds(sha: Sha512, h: BlockHeader, proof: WorkProof) {
    && Matches(h, proof)
    && h.difficulty > 0
    && proof.hashResult == sha(HeaderBytes(h) + LE(h.nonce, 8) + LE(h.extraNonce, 8))
    && LeadingZeroBits(proof.hashResult) >= FloorLog2(h.difficulty)
  }

  /** `validate_proof_of_work` */
  method ValidateProofOfWork(sha: Sha512, h: BlockHeader, proof: WorkProof) returns (r: Result<bool, PoWError>)
    ensures r.Ok? ==> r.value
    ensures r.Ok? <==> ProofOfWorkHolds(sha, h, proof)
    ensures !Matches(h, proof) ==> r.Err? && r.error.InvalidBlock?
    ensures Matches(h, proof) && r.Err? ==>
      r.error == if h.difficulty == 0 then InvalidDifficulty else WorkProofVerificationFailed
  {
    if proof.nonce != h.nonce || proof.extraNonce != h.extraNonce {
      return Err(InvalidBlock(NonceMismatch));
    }
    if proof.chainId != h.chainId {
      return Err(InvalidBlock(ChainIdMismatch));
    }
    if proof.blockHeight != h.blockHeight {
      return Err(InvalidBlock(HeightMismatch));
    }
    var target := CalculateTarget(h.difficulty);
    if target.Err? {
      return Err(target.error);
    }
    if |proof.hashResult| == HASH_BYTES {
      HardnessAgreement(proof.hashResult, h.difficulty);
    }
    if !SliceLe(proof.hashResult, target.value) {
      return Err(WorkProofVerificationFailed);
    }
    var calculated := sha(HeaderBytes(h) + LE(h.nonce, 8) + LE(h.extraNonce, 8));
    if calculated != proof.hashResult {
      return Err(WorkProofVerificationFailed);
    }
    return Ok(true);
  }

  /** The header of the block that a proof for this package belongs to. */
  function HeaderFor(work: WorkPackage, proof: WorkProof): BlockHeader {
    BlockHeader(work.version, work.parentHash, work.merkleRoot, work.timestamp, work.difficulty,
                work.chainId, work.blockHeight, proof.nonce, proof.extraNonce)
  }

  /**
   The validator recomputes the very hash the miner found, so it takes a mined
   proof exactly when that hash achieves the power of two below the difficulty.
   */
  lemma MinedProofHoldsIff(sha: Sha512, work: WorkPackage, proof: WorkProof)
    requires MinedFrom(sha, work, proof) && work.difficulty > 0
    ensures FloorLog2(work.difficulty) < 64
    ensures ProofOfWorkHolds(sha, HeaderFor(work, proof), proof) <==>
      proof.difficultyAchieved >= Pow2(FloorLog2(work.difficulty))
  {
    MinedProofVerifies(sha, work, proof);
    HardnessAgreement(proof.hashResult, work.difficulty);
  }

  /** Every hash that meets the validator's target meets the work package's target of the same difficulty. */
  lemma ValidatorIsStricter(h: Digest, d: u64)
    requires d > 0
    ensures FloorLog2(d) < 64
    ensures SliceLe(h, MaskTarget(FloorLog2(d))) ==> SliceLe(h, WorkTarget(d))
  {
    FloorLog2OfU64(d);
    if d == 1 {
      BelowAllOnes(h);
    } else {
      MaskBelowWorkTarget(d);
      LexIsNumeric(h, MaskTarget(FloorLog2(d)));
      LexIsNumeric(MaskTarget(FloorLog2(d)), WorkTarget(d));
      LexIsNumeric(h, WorkTarget(d));
    }
  }

  lemma MaskBelowWorkTarget(d: u64)
    requires d > 1
    ensures FloorLog2(d) < 64
    ensures SliceLe(MaskTarget(FloorLog2(d)), WorkTarget(d)) && !SliceLe(WorkTarget(d), MaskTarget(FloorLog2(d)))
  {
    FloorLog2OfU64(d);
    var k := FloorLog2(d);
    assert k > 0;
    assert MaskTarget(k)[0] < 255 == WorkTarget(d)[0];
    FirstDifferenceDecides(MaskTarget(k), WorkTarget(d), 0);
  }

  /** The two targets are the same test only at difficulty 1; elsewhere the work target itself tells them apart. */
  lemma TargetsCoincideIff(d: u64)
    requires d > 0
    ensures FloorLog2(d) < 64
    ensures (forall h: Digest :: SliceLe(h, WorkTarget(d)) ==> SliceLe(h, MaskTarget(FloorLog2(d)))) <==> d == 1
  {
    FloorLog2OfU64(d);
    if d == 1 {
      FloorLog2Unique(1, 0);
      assert MaskTarget(0) == Repeat(255, 64);
    } else {
      MaskBelowWorkTarget(d);
      SliceLeReflexive(WorkTarget(d));
    }
  }

  /** The bytes the validator hashes are those the miner hashed, field by field. */
  lemma ValidatorLayout(h: BlockHeader)
    requires |h.parentHash| == 64 && |h.merkleRoot| == 64
    ensures var b := HeaderBytes(h);
            && |b| == 160
            && b[0..4] == LE(h.version, 4) && b[4..68] == h.parentHash && b[68..132] == h.merkleRoot
            && b[132..140] == LE(h.timestamp, 8) && b[140..148] == LE(h.difficulty, 8)
            && b[148..152] == LE(h.chainId, 4) && b[152..160] == LE(h.blockHeight, 8)
  {
  }

  /** What the validator demands, in numbers. */
  lemma ProofOfWorkIff(sha: Sha512, h: BlockHeader, proof: WorkProof)
    ensures ProofOfWorkHolds(sha, h, proof) <==>
      && (proof.nonce, proof.extraNonce, proof.chainId, proof.blockHeight)
        == (h.nonce, h.extraNonce, h.chainId, h.blockHeight)
      && h.difficulty > 0
      && proof.hashResult == sha(HeaderBytes(h) + LE(h.nonce, 8) + LE(h.extraNonce, 8))
      && BE(proof.hashResult) * Pow2(FloorLog2(h.difficulty)) < Pow2(HASH_BITS)
  {
    if |proof.hashResult| == HASH_BYTES && h.difficulty > 0 {
      HardnessAgreement(proof.hashResult, h.difficulty);
      FloorLog2OfU64(h.difficulty);
      MaskTest(proof.hashResult, FloorLog2(h.difficulty));
      ShareAgreement.SplitHash(FloorLog2(h.difficulty), BE(proof.hashResult));
    }
  }
}
