/** The mining loop (src/miner.rs): a search through nonce and extra nonce. */
module Mining {

  import opened Arithmetic
  import opened Words
  import opened Outcomes
  import opened Targets
  import opened Encoding
  import opened Work
  import opened Sequences

  const HASHES_PER_CHECK: nat := 1_000_000
  const MAX_PROOF_TIMES: nat := 100

  // ---------------------------------------------------------------- the search space

  /** The counters the loop moves: the pair to try, attempts since the last look for new work, looks so far. */
  datatype Cursor = Cursor(nonce: u64, extraNonce: u64, sinceCheck: nat, checks: nat)

  const START: Cursor := Cursor(0, 0, 0, 0)

  predicate LooksAfter(c: Cursor) {
    c.sinceCheck + 1 >= HASHES_PER_CHECK
  }

  /** After a failed attempt: a wrapped nonce carries into the extra nonce, and every millionth time the loop looks. */
  function Next(c: Cursor): Cursor {
    var nonce := Increment(c.nonce);
    var extraNonce := if nonce == 0 then Increment(c.extraNonce) else c.extraNonce;
    if LooksAfter(c) then Cursor(nonce, extraNonce, 0, c.checks + 1)
    else Cursor(nonce, extraNonce, c.sinceCheck + 1, c.checks)
  }

  /** The counters at attempt n. */
  function CursorAt(n: nat): Cursor {
    if n == 0 then START else Next(CursorAt(n - 1))
  }

  /** The counter n split at 2^64, and at a million. */
  lemma SplitNext(n: nat, m: nat)
    requires m > 0
    ensures n % m + 1 < m ==> (n + 1) % m == n % m + 1 && (n + 1) / m == n / m
    ensures n % m + 1 >= m ==> (n + 1) % m == 0 && (n + 1) / m == n / m + 1
  {
    DivMod(n, m);
    if n % m + 1 < m {
      DivUnique(n + 1, m, n / m, n % m + 1);
    } else {
      Distribute(n / m, 1, m);
      DivUnique(n + 1, m, n / m + 1, 0);
    }
  }

  lemma {:induction false} PairFormula(n: nat)
    ensures CursorAt(n).nonce == n % U64_MOD && CursorAt(n).extraNonce == n / U64_MOD % U64_MOD
  {
    if n > 0 {
      PairFormula(n - 1);
      SplitNext(n - 1, U64_MOD);
      SplitNext((n - 1) / U64_MOD, U64_MOD);
    }
  }

  lemma {:induction false} LookFormula(n: nat)
    ensures CursorAt(n).sinceCheck == n % HASHES_PER_CHECK && CursorAt(n).checks == n / HASHES_PER_CHECK
  {
    if n > 0 {
      LookFormula(n - 1);
      SplitNext(n - 1, HASHES_PER_CHECK);
    }
  }

  /** The pair at attempt n is the 128-bit counter extra * 2^64 + nonce, and a look follows every millionth attempt. */
  lemma CursorFormula(n: nat)
    ensures CursorAt(n) == Cursor(n % U64_MOD, n / U64_MOD % U64_MOD, n % HASHES_PER_CHECK, n / HASHES_PER_CHECK)
  {
    PairFormula(n);
    LookFormula(n);
  }

  /** Before 2^128 attempts no pair is tried twice. */
  lemma NoPairRepeats(i: nat, j: nat)
    requires i < j < U128_MOD
    ensures CursorAt(i).nonce != CursorAt(j).nonce || CursorAt(i).extraNonce != CursorAt(j).extraNonce
  {
    CursorFormula(i);
    CursorFormula(j);
  }

  /** Every pair is tried, at the attempt it numbers. */
  lemma EveryPairIsTried(nonce: u64, extraNonce: u64)
    ensures extraNonce * U64_MOD + nonce < U128_MOD
    ensures var c := CursorAt(extraNonce * U64_MOD + nonce); c.nonce == nonce && c.extraNonce == extraNonce
  {
    var n := extraNonce * U64_MOD + nonce;
    CursorFormula(n);
    DivUnique(n, U64_MOD, extraNonce, nonce);
    DivUnique(extraNonce, U64_MOD, 0, extraNonce);
  }

  function HashOf(sha: Sha512, work: WorkPackage, nonce: u64, extraNonce: u64): Digest {
    sha(HeaderForHashing(work) + LE(nonce, 8) + LE(extraNonce, 8))
  }

  /** Nonce and extra nonce solve the package. */
  predicate Solves(sha: Sha512, work: WorkPackage, nonce: u64, extraNonce: u64) {
    SliceLe(HashOf(sha, work, nonce, extraNonce), work.target)
  }

  /** Attempt i succeeds. */
  predicate Hit(sha: Sha512, work: WorkPackage, i: nat) {
    Solves(sha, work, CursorAt(i).nonce, CursorAt(i).extraNonce)
  }

  /** What the loop sees when it looks for new work; `seen(j)` is the current work at its j-th look. */
  type WorkFeed = nat -> Option<WorkPackage>

  /** After a failed attempt i the loop looks, and finds another package. */
  predicate Replaced(work: WorkPackage, seen: WorkFeed, i: nat) {
    LooksAfter(CursorAt(i)) && IsOther(work, seen(CursorAt(i).checks + 1))
  }

  predicate IsOther(work: WorkPackage, current: Option<WorkPackage>) {
    current.Some? && current.value.workId != work.workId
  }

  predicate Stops(sha: Sha512, work: WorkPackage, seen: WorkFeed, i: nat) {
    Hit(sha, work, i) || Replaced(work, seen, i)
  }

  ghost predicate FirstStop(sha: Sha512, work: WorkPackage, seen: WorkFeed, n: nat) {
    Stops(sha, work, seen, n) && forall j: nat :: j < n ==> !Stops(sha, work, seen, j)
  }

  /** The proof built for a nonce and an extra nonce. */
  function ProofOf(sha: Sha512, work: WorkPackage, minerAddress: seq<Byte>, timestamp: u64, nonce: u64, extraNonce: u64)
    : Result<WorkProof, PoWError>
  {
    BuildProof(work.workId, work.chainId, work.blockHeight, nonce, extraNonce, work.blockHash,
               HashOf(sha, work, nonce, extraNonce), timestamp, minerAddress)
  }

  /** The proof that attempt i yields. */
  function ProofAt(sha: Sha512, work: WorkPackage, minerAddress: seq<Byte>, timestamp: u64, i: nat)
    : Result<WorkProof, PoWError>
  {
    ProofOf(sha, work, minerAddress, timestamp, CursorAt(i).nonce, CursorAt(i).extraNonce)
  }

  function Found(built: Result<WorkProof, PoWError>): Result<Option<WorkProof>, PoWError> {
    match built
    case Ok(proof) => Ok(Some(proof))
    case Err(error) => Err(error)
  }

  /** Attempt i succeeds exactly when the hash of header, nonce and extra nonce does not exceed the target. */
  lemma HitIs(sha: Sha512, work: WorkPackage, i: nat)
    ensures var hash := sha(HeaderForHashing(work) + LE(i % 0x1_0000_0000_0000_0000, 8)
                            + LE(i / 0x1_0000_0000_0000_0000 % 0x1_0000_0000_0000_0000, 8));
            && (Hit(sha, work, i) <==> SliceLe(hash, work.target))
            && (|work.target| == 64 ==> (Hit(sha, work, i) <==> BE(hash) <= BE(work.target)))
  {
    PairFormula(i);
    if |work.target| == 64 {
      LexIsNumeric(HashOf(sha, work, CursorAt(i).nonce, CursorAt(i).extraNonce), work.target);
    }
  }

  /** The loop looks for new work after every millionth attempt, and leaves when it finds another package there. */
  lemma ReplacedIs(work: WorkPackage, seen: WorkFeed, i: nat)
    ensures Replaced(work, seen, i) <==>
      && (i + 1) % 1_000_000 == 0
      && seen((i + 1) / 1_000_000).Some?
      && seen((i + 1) / 1_000_000).value.workId != work.workId
  {
    LookFormula(i);
    SplitNext(i, HASHES_PER_CHECK);
  }

  /** What the proof of attempt i holds. */
  lemma ProofFields(sha: Sha512, work: WorkPackage, minerAddress: seq<Byte>, timestamp: u64, i: nat)
    requires minerAddress != []
    ensures var nonce, extra := i % 0x1_0000_0000_0000_0000, i / 0x1_0000_0000_0000_0000 % 0x1_0000_0000_0000_0000;
            var hash := sha(HeaderForHashing(work) + LE(nonce, 8) + LE(extra, 8));
            ProofAt(sha, work, minerAddress, timestamp, i) == Ok(WorkProof(
              work.workId, work.chainId, work.blockHeight, nonce, extra, work.blockHash, hash, timestamp,
              minerAddress, AchievedDifficulty(hash)))
  {
    PairFormula(i);
  }

  /** Whether any attempt ever hits is decided by the 2^64 * 2^64 pairs, within the first 2^128 attempts. */
  lemma HitsExactlyWhenSolvable(sha: Sha512, work: WorkPackage)
    ensures (exists i: nat :: Hit(sha, work, i)) <==>
            (exists nonce: u64, extraNonce: u64 :: Solves(sha, work, nonce, extraNonce))
    ensures (exists i: nat :: Hit(sha, work, i)) <==> (exists i: nat :: i < U128_MOD && Hit(sha, work, i))
  {
    if nonce: u64, extraNonce: u64 :| Solves(sha, work, nonce, extraNonce) {
      EveryPairIsTried(nonce, extraNonce);
      assert Hit(sha, work, extraNonce * U64_MOD + nonce);
    }
    if i: nat :| Hit(sha, work, i) {
      assert Solves(sha, work, CursorAt(i).nonce, CursorAt(i).extraNonce);
    }
  }

  /** The loop stops exactly when the package is solvable or some look finds it replaced. */
  lemma StopsIff(sha: Sha512, work: WorkPackage, seen: WorkFeed)
    ensures (exists n: nat :: Stops(sha, work, seen, n)) <==>
            || (exists nonce: u64, extraNonce: u64 :: Solves(sha, work, nonce, extraNonce))
            || (exists n: nat :: Replaced(work, seen, n))
  {
    HitsExactlyWhenSolvable(sha, work);
    if i: nat :| Hit(sha, work, i) {
      assert Stops(sha, work, seen, i);
    }
    if i: nat :| Replaced(work, seen, i) {
      assert Stops(sha, work, seen, i);
    }
    if n: nat :| Stops(sha, work, seen, n) {
      assert Hit(sha, work, n) || Replaced(work, seen, n);
    }
  }

  // ---------------------------------------------------------------- what a mined proof is

  /** The proof comes out of a hit of the loop on this package. */
  ghost predicate MinedFrom(sha: Sha512, work: WorkPackage, proof: WorkProof) {
    exists i: nat, minerAddress: seq<Byte>, timestamp: u64 ::
      Hit(sha, work, i) && ProofAt(sha, work, minerAddress, timestamp, i) == Ok(proof)
  }

  /** What the loop returns on its first stop: a mined proof, and only a package that was replaced gives none. */
  lemma LoopResult(sha: Sha512, work: WorkPackage, seen: WorkFeed, minerAddress: seq<Byte>, timestamp: u64, n: nat)
    requires FirstStop(sha, work, seen, n)
    ensures !Hit(sha, work, n) ==> Replaced(work, seen, n)
    ensures Hit(sha, work, n) ==> forall j: nat :: j < n ==> !Hit(sha, work, j)
    ensures Hit(sha, work, n) ==>
      var r := Found(ProofAt(sha, work, minerAddress, timestamp, n));
      && (r == Err(InvalidWorkProof) <==> minerAddress == [])
      && (minerAddress != [] ==> r.Ok? && r.value.Some? && MinedFrom(sha, work, r.value.value))
  {
    if Hit(sha, work, n) {
      forall j: nat | j < n
        ensures !Hit(sha, work, j)
      {
        assert !Stops(sha, work, seen, j);
      }
    }
  }

  /** A mined proof verifies against its package, belongs to it, and claims the work its hash shows. */
  lemma MinedProofVerifies(sha: Sha512, work: WorkPackage, proof: WorkProof)
    requires MinedFrom(sha, work, proof)
    ensures |work.target| == 64 ==> Verify(proof, work.target) == Ok(true)
    ensures SliceLe(proof.hashResult, work.target)
    ensures |proof.hashResult| == 64 && proof.difficultyAchieved == AchievedDifficulty(proof.hashResult)
    ensures proof.hashResult == HashOf(sha, work, proof.nonce, proof.extraNonce)
    ensures (proof.workId, proof.chainId, proof.blockHeight) == (work.workId, work.chainId, work.blockHeight)
    ensures proof.minerAddress != []
  {
  }

  // ---------------------------------------------------------------- the miner

  /** The hash counter after n attempts. */
  function HashCount(start: u64, n: nat): u64 {
    if n == 0 then start else Increment(HashCount(start, n - 1))
  }

  lemma {:induction false} HashCountFormula(start: u64, n: nat)
    ensures HashCount(start, n) == (start + n) % U64_MOD
  {
    if n > 0 {
      HashCountFormula(start, n - 1);
    }
  }

  class Miner {
    var totalHashes: u64
    var validProofs: nat
    var reportedHashes: u64
    var proofTimes: seq<u64>

    constructor ()
      ensures totalHashes == 0 && validProofs == 0 && reportedHashes == 0 && proofTimes == []
    {
      totalHashes, validProofs, reportedHashes, proofTimes := 0, 0, 0, [];
    }

    /** The branch of the loop taken on a hit: build the proof, keep the statistics. */
    method Finish(built: Result<WorkProof, PoWError>, proofTime: u64) returns (r: Result<Option<WorkProof>, PoWError>)
      requires |proofTimes| <= MAX_PROOF_TIMES
      modifies this`validProofs, this`reportedHashes, this`proofTimes
      ensures r == Found(built)
      ensures built.Ok? ==>
        && validProofs == old(validProofs) + 1
        && reportedHashes == totalHashes
        && proofTimes == LastOf(old(proofTimes) + [proofTime], 100)
      ensures built.Err? ==> validProofs == old(validProofs) && proofTimes == old(proofTimes)
    {
      if built.Err? {
        return Err(built.error);
      }
      validProofs := validProofs + 1;
      reportedHashes := totalHashes;
      proofTimes := proofTimes + [proofTime];
      if |proofTimes| > MAX_PROOF_TIMES {
        proofTimes := proofTimes[1..];
      }
      return Ok(Some(built.value));
    }

    /**
     The loop of `mine_work_with_address`.  It has no bound of its own: it is
     entered only if some attempt stops it, and `n` is the first that does.
     On a hit it leaves with the pair that hit.
     */
    method Search(sha: Sha512, work: WorkPackage, seen: WorkFeed)
      returns (hit: bool, nonce: u64, extraNonce: u64, ghost n: nat)
      requires exists i: nat :: Stops(sha, work, seen, i)
      modifies this`totalHashes, this`reportedHashes
      ensures FirstStop(sha, work, seen, n)
      ensures hit <==> Hit(sha, work, n)
      ensures hit ==> nonce == CursorAt(n).nonce && extraNonce == CursorAt(n).extraNonce
      ensures totalHashes == HashCount(old(totalHashes), n + 1)
    {
      ghost var bound: nat :| Stops(sha, work, seen, bound);
      ghost var start := totalHashes;
      nonce, extraNonce, n := 0, 0, 0;
      var hashesSinceWorkCheck, checks := 0, 0;
      while true
        invariant n <= bound
        invariant forall j: nat :: j < n ==> !Stops(sha, work, seen, j)
        invariant CursorAt(n) == Cursor(nonce, extraNonce, hashesSinceWorkCheck, checks)
        invariant totalHashes == HashCount(start, n)
        decreases bound - n
      {
        totalHashes := Increment(totalHashes);
        hashesSinceWorkCheck := hashesSinceWorkCheck + 1;
        if Solves(sha, work, nonce, extraNonce) {
          hit := true;
          return;
        }
        nonce := Increment(nonce);
        if nonce == 0 {
          extraNonce := Increment(extraNonce);
        }
        if hashesSinceWorkCheck >= HASHES_PER_CHECK {
          hashesSinceWorkCheck := 0;
          checks := checks + 1;
          if IsOther(work, seen(checks)) {
            hit := false;
            return;
          }
          reportedHashes := totalHashes;
        }
        n := n + 1;
      }
    }

    /** `mine_work_with_address` */
    method MineWork(sha: Sha512, work: WorkPackage, minerAddress: seq<Byte>, seen: WorkFeed,
                    timestamp: u64, proofTime: u64)
      returns (r: Result<Option<WorkProof>, PoWError>, ghost n: nat)
      requires exists i: nat :: Stops(sha, work, seen, i)
      requires |proofTimes| <= MAX_PROOF_TIMES
      modifies this
      ensures FirstStop(sha, work, seen, n)
      ensures totalHashes == (old(totalHashes) + n + 1) % U64_MOD
      ensures !Hit(sha, work, n) ==> r == Ok(None)
      ensures Hit(sha, work, n) ==> r == Found(ProofAt(sha, work, minerAddress, timestamp, n))
      ensures r.Ok? && r.value.Some? ==>
        && validProofs == old(validProofs) + 1
        && reportedHashes == totalHashes
        && proofTimes == LastOf(old(proofTimes) + [proofTime], 100)
      ensures !(r.Ok? && r.value.Some?) ==> validProofs == old(validProofs) && proofTimes == old(proofTimes)
    {
      var hit, nonce, extraNonce;
      hit, nonce, extraNonce, n := Search(sha, work, seen);
      HashCountFormula(old(totalHashes), n + 1);
      if !hit {
        r := Ok(None);
        return;
      }
      r := Finish(ProofOf(sha, work, minerAddress, timestamp, nonce, extraNonce), proofTime);
    }
  }
}
