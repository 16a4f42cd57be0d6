/**
 From `create_work_package` through the mining loop to `submit_block`: which
 mined proofs the consensus engine takes, however many miners race.
 */
module EndToEnd {

  import opened Words
  import opened Outcomes
  import opened Work
  import opened Retarget
  import opened Consensus
  import opened Mining
  import opened Encoding
  import opened Targets
  import opened BlockValidator

  /** A package for chain c made in state st. */
  ghost predicate PackageOf(sha: Sha512, st: State, c: u32, work: WorkPackage) {
    exists blockHash: seq<Byte>, parentHash: seq<Byte>, merkleRoot: seq<Byte>, now: u64 ::
      CreateWork(sha, st, c, blockHash, parentHash, merkleRoot, now) == Ok(work)
  }

  lemma PackageFacts(sha: Sha512, st: State, c: u32, work: WorkPackage)
    requires PackageOf(sha, st, c, work)
    ensures c in st.chains && st.chains[c].currentDifficulty > 0
    ensures work.chainId == c && work.blockHeight == (st.chains[c].currentHeight + 1) % U64_MOD
    ensures work.target == WorkTarget(st.chains[c].currentDifficulty)
  {
  }

  /** Accepted blocks are the only thing that moves a chain, and each moves its height by one. */
  lemma {:induction false} ChainMovesWithAccepted(cfg: PoWConfig, st: State, es: seq<Event>, c: u32)
    requires c in st.chains
    ensures var st', accepted := Run(cfg, st, es), Accepted(cfg, st, es, c);
            && c in st'.chains
            && st'.chains[c].currentHeight == st.chains[c].currentHeight + |accepted|
            && (accepted == [] ==> st'.chains[c] == st.chains[c])
  {
    if es != [] {
      var init, last := es[..|es| - 1], es[|es| - 1];
      ChainMovesWithAccepted(cfg, st, init, c);
      if c != (if last.SubmitBlock? then last.proof.chainId else last.chainId) {
        StepIsLocal(cfg, Run(cfg, st, init), last, c);
      }
    }
  }

  /** The engine takes a mined proof in a state exactly when the chain is still as the package saw it. */
  lemma MinedProofFits(sha: Sha512, st: State, c: u32, work: WorkPackage, proof: WorkProof, later: State)
    requires PackageOf(sha, st, c, work) && MinedFrom(sha, work, proof)
    requires st.chains[c].currentHeight + 1 < U64_MOD
    requires c in later.chains && later.chains[c].currentHeight >= st.chains[c].currentHeight
    requires later.chains[c].currentHeight == st.chains[c].currentHeight ==> later.chains[c] == st.chains[c]
    ensures Rejection(later, proof) ==
      if later.chains[c].currentHeight == st.chains[c].currentHeight then None else Some(InvalidBlock(BadHeight))
  {
    PackageFacts(sha, st, c, work);
    MinedProofVerifies(sha, work, proof);
  }

  /**
   Whatever happens between making the package and submitting the proof: it is
   accepted if no block was accepted on that chain, and refused for its height
   otherwise.
   */
  lemma MinedProofOutcome(sha: Sha512, cfg: PoWConfig, st: State, c: u32, work: WorkPackage, proof: WorkProof,
                          es: seq<Event>, now: u64)
    requires PackageOf(sha, st, c, work) && MinedFrom(sha, work, proof)
    requires st.chains[c].currentHeight + 1 < U64_MOD
    ensures Submit(cfg, Run(cfg, st, es), proof, now).1 ==
      if Accepted(cfg, st, es, c) == [] then Ok(true) else Err(InvalidBlock(BadHeight))
  {
    PackageFacts(sha, st, c, work);
    ChainMovesWithAccepted(cfg, st, es, c);
    MinedProofFits(sha, st, c, work, proof, Run(cfg, st, es));
  }

  /** Every submission on chain c carries a proof mined from a package made in state st. */
  ghost predicate Racing(sha: Sha512, st: State, es: seq<Event>, c: u32) {
    forall i :: 0 <= i < |es| && es[i].SubmitBlock? && es[i].proof.chainId == c ==>
      exists work :: PackageOf(sha, st, c, work) && MinedFrom(sha, work, es[i].proof)
  }

  /** The proofs submitted on chain c, in order. */
  function Submitted(es: seq<Event>, c: u32): seq<WorkProof> {
    if es == [] then []
    else
      var last := es[|es| - 1];
      Submitted(es[..|es| - 1], c) + if last.SubmitBlock? && last.proof.chainId == c then [last.proof] else []
  }

  /** Of any number of racing proofs for one height, exactly the first submitted is accepted. */
  lemma {:induction false} FirstProofWins(sha: Sha512, cfg: PoWConfig, st: State, es: seq<Event>, c: u32)
    requires c in st.chains && st.chains[c].currentHeight + 1 < U64_MOD
    requires Racing(sha, st, es, c)
    ensures Accepted(cfg, st, es, c) == Submitted(es, c)[..Min(1, |Submitted(es, c)|)]
  {
    if es != [] {
      var init, last := es[..|es| - 1], es[|es| - 1];
      FirstProofWins(sha, cfg, st, init, c);
      if last.SubmitBlock? && last.proof.chainId == c {
        var work :| PackageOf(sha, st, c, work) && MinedFrom(sha, work, last.proof);
        MinedProofOutcome(sha, cfg, st, c, work, last.proof, init, last.now);
      }
    }
  }

  // ---------------------------------------------------------------- what acceptance does not look at

  /** Acceptance reads three fields of a proof: its chain, its height and the hash it claims. */
  lemma AcceptanceReads(st: State, proof: WorkProof, other: WorkProof)
    requires (proof.chainId, proof.blockHeight, proof.hashResult)
      == (other.chainId, other.blockHeight, other.hashResult)
    ensures Rejection(st, proof) == Rejection(st, other)
  {
  }

  /**
   An accepted proof also passes the block validator, for a header that matches it
   at the chain's difficulty, if and only if the claimed hash is the header's own
   and meets the validator's stricter target.
   */
  lemma AcceptedIsValidIff(sha: Sha512, st: State, h: BlockHeader, proof: WorkProof)
    requires Rejection(st, proof) == None && Matches(h, proof)
    requires h.difficulty == st.chains[proof.chainId].currentDifficulty
    ensures FloorLog2(h.difficulty) < 64
    ensures ProofOfWorkHolds(sha, h, proof) <==>
      && proof.hashResult == sha(HeaderBytes(h) + LE(h.nonce, 8) + LE(h.extraNonce, 8))
      && SliceLe(proof.hashResult, MaskTarget(FloorLog2(h.difficulty)))
  {
    FloorLog2OfU64(h.difficulty);
    if |proof.hashResult| == HASH_BYTES {
      HardnessAgreement(proof.hashResult, h.difficulty);
    }
  }

  /** An empty claimed hash is accepted by a fresh chain, though no header makes it valid under any hash function. */
  lemma EmptyHashIsAccepted(sha: Sha512, h: BlockHeader, cfg: PoWConfig)
    ensures Submit(cfg, Initialize(EMPTY, 0, 0).0, FIRST_PROOF, 0).1 == Ok(true)
    ensures !ProofOfWorkHolds(sha, h, FIRST_PROOF)
  {
  }
}
