/**
 The Stratum pool (src/stratum_pool.rs): miner sessions, their share counters,
 and the subscribe / authorize / submit states of each connection.  Answers of
 the node and the validity of addresses are inputs.
 */
module StratumPool {

  import opened Words
  import opened Outcomes
  import opened Sums
  import opened Hex
  import opened Encoding
  import opened Targets
  import opened ShareAgreement
  import opened JobIds

  datatype MinerSession = MinerSession(
    minerId: string,
    address: string,
    difficulty: u64,
    shares: nat,
    validShares: nat,
    invalidShares: nat)

  datatype PoolConfig = PoolConfig(poolDifficulty: u64, minDifficulty: u64)

  datatype PoolState = PoolState(miners: map<string, MinerSession>, totalValidShares: nat, workHeight: u64)

  /** What the node answers while a share is processed: its difficulty each time it is asked, and the submission. */
  datatype Node = Node(difficultyForCheck: Option<u64>, difficultyForSubmit: Option<u64>, takesBlock: bool)

  datatype PoolError = BadAddress | MinerNotFound | BadHash | BadMinerAddress | ZeroNonce | ZeroDifficulty | NodeRefused

  // ---------------------------------------------------------------- pool operations on values

  /** `register_miner`; `id` is the fresh UUID. */
  function Register(cfg: PoolConfig, st: PoolState, address: string, addressValid: bool, id: string)
    : (PoolState, Result<string, PoolError>)
  {
    if !addressValid then (st, Err(BadAddress))
    else (st.(miners := st.miners[id := MinerSession(id, address, cfg.minDifficulty, 0, 0, 0)]), Ok(id))
  }

  /** `validate_share_difficulty` */
  predicate ValidShare(hash: string, difficulty: u64) {
    var bytes := Decode(hash);
    && bytes.Some?
    && |bytes.value| == HASH_BYTES
    && difficulty > 0
    && PoolAccepts(bytes.value, difficulty)
  }

  function NodeDifficulty(cfg: PoolConfig, answer: Option<u64>): u64 {
    match answer case Some(d) => d case None => cfg.poolDifficulty
  }

  /** `is_block_candidate`: the same test at the network difficulty. */
  predicate BlockCandidate(cfg: PoolConfig, hash: string, node: Node) {
    ValidShare(hash, NodeDifficulty(cfg, node.difficultyForCheck))
  }

  /** `submit_block_to_node`, as far as it can fail. */
  function SubmitBlockToNode(cfg: PoolConfig, hash: string, address: string, node: Node): Result<(), PoolError> {
    var bytes := Decode(hash);
    if bytes.None? || |bytes.value| != HASH_BYTES then Err(BadHash)
    else if address == [] || |address| > 100 then Err(BadMinerAddress)
    else if FromLE(bytes.value[56..]) == 0 then Err(ZeroNonce)
    else if NodeDifficulty(cfg, node.difficultyForSubmit) == 0 then Err(ZeroDifficulty)
    else if !node.takesBlock then Err(NodeRefused)
    else Ok(())
  }

  /** The session after a share has been counted. */
  function Counted(m: MinerSession, valid: bool): MinerSession {
    if valid then m.(shares := m.shares + 1, validShares := m.validShares + 1)
    else m.(shares := m.shares + 1, invalidShares := m.invalidShares + 1)
  }

  /** The pool after a share of a registered miner has been counted. */
  function CountShare(st: PoolState, id: string, valid: bool): PoolState
    requires id in st.miners
  {
    PoolState(st.miners[id := Counted(st.miners[id], valid)],
              st.totalValidShares + if valid then 1 else 0, st.workHeight)
  }

  /** `submit_share`: counters move before the node is asked, so they stay moved when it refuses. */
  function SubmitShare(cfg: PoolConfig, st: PoolState, id: string, hash: string, node: Node)
    : (PoolState, Result<bool, PoolError>)
  {
    if id !in st.miners then (st, Err(MinerNotFound))
    else
      var miner := st.miners[id];
      var valid := ValidShare(hash, miner.difficulty);
      (CountShare(st, id, valid), ShareAnswer(cfg, valid, hash, miner.address, node))
  }

  function ShareAnswer(cfg: PoolConfig, valid: bool, hash: string, address: string, node: Node)
    : Result<bool, PoolError>
  {
    if valid && BlockCandidate(cfg, hash, node) then
      match SubmitBlockToNode(cfg, hash, address, node)
      case Err(error) => Err(error)
      case Ok(_) => Ok(true)
    else Ok(valid)
  }

  class Pool {
    const config: PoolConfig
    var miners: map<string, MinerSession>
    var totalValidShares: nat
    var workHeight: u64

    ghost function Model(): PoolState
      reads this
    {
      PoolState(miners, totalValidShares, workHeight)
    }

    constructor (config: PoolConfig)
      ensures this.config == config && Model() == PoolState(map[], 0, 1)
    {
      this.config := config;
      miners, totalValidShares, workHeight := map[], 0, 1;
    }

    method RegisterMiner(address: string, addressValid: bool, id: string) returns (r: Result<string, PoolError>)
      modifies this`miners
      ensures (Model(), r) == Register(config, old(Model()), address, addressValid, id)
    {
      if !addressValid {
        return Err(BadAddress);
      }
      miners := miners[id := MinerSession(id, address, config.minDifficulty, 0, 0, 0)];
      return Ok(id);
    }

    /** `validate_share_difficulty` and `is_block_candidate` share these statements. */
    method MeetsDifficulty(hash: string, difficulty: u64) returns (ok: bool)
      ensures ok == ValidShare(hash, difficulty)
    {
      var bytes := Decode(hash);
      if bytes.None? {
        return false;
      }
      if |bytes.value| != HASH_BYTES {
        return false;
      }
      if difficulty == 0 {
        return false;
      }
      var target := CalculateTarget(difficulty);
      return SliceLe(bytes.value, target.value);
    }

    method SubmitShareOf(id: string, hash: string, node: Node) returns (r: Result<bool, PoolError>)
      modifies this`miners, this`totalValidShares
      ensures (Model(), r) == SubmitShare(config, old(Model()), id, hash, node)
    {
      if id !in miners {
        return Err(MinerNotFound);
      }
      var miner := miners[id];
      miner := miner.(shares := miner.shares + 1);
      var valid := MeetsDifficulty(hash, miner.difficulty);
      if valid {
        miner := miner.(validShares := miner.validShares + 1);
        miners := miners[id := miner];
        totalValidShares := totalValidShares + 1;
        var candidate := MeetsDifficulty(hash, NodeDifficulty(config, node.difficultyForCheck));
        if candidate {
          var sent := SubmitBlockToNode(config, hash, miner.address, node);
          if sent.Err? {
            return Err(sent.error);
          }
        }
        return Ok(true);
      } else {
        miner := miner.(invalidShares := miner.invalidShares + 1);
        miners := miners[id := miner];
        return Ok(false);
      }
    }
  }

  // ---------------------------------------------------------------- connections

  datatype Connection = Connection(minerId: Option<string>, authorized: bool)

  const NEW_CONNECTION: Connection := Connection(None, false)

  datatype Message =
    | Subscribe(address: string, addressValid: bool, freshId: string)
    | Authorize
    | Submit(jobId: string, hash: string, node: Node)
    | OtherMethod

  datatype Response =
    | Subscribed(id: string)
    | SubscribeFailed(error: PoolError)
    | Authorized
    | NotSubscribed
    | NotAuthorized
    | Stale
    | ShareAccepted
    | ShareRejected
    | ShareError(error: PoolError)
    | OtherResponse

  /** One request in `handle_miner_connection`. */
  function Handle(cfg: PoolConfig, st: PoolState, conn: Connection, m: Message): (PoolState, Connection, Response) {
    match m
    case Subscribe(address, valid, id) =>
      var (st', r) := Register(cfg, st, address, valid, id);
      (match r
       case Ok(registered) => (st', Connection(Some(registered), false), Subscribed(registered))
       case Err(error) => (st', conn, SubscribeFailed(error)))
    case Authorize =>
      if conn.minerId.Some? then (st, conn.(authorized := true), Authorized) else (st, conn, NotSubscribed)
    case Submit(jobId, hash, node) =>
      if !conn.authorized || conn.minerId.None? then (st, conn, NotAuthorized)
      else if HeightOf(jobId) > 0 && HeightOf(jobId) < st.workHeight then (st, conn, Stale)
      else
        var (st', r) := SubmitShare(cfg, st, conn.minerId.value, hash, node);
        (st', conn, match r
                    case Ok(valid) => if valid then ShareAccepted else ShareRejected
                    case Err(error) => ShareError(error))
    case OtherMethod => (st, conn, OtherResponse)
  }

  // ---------------------------------------------------------------- what the calls answer and change

  /** A share is valid exactly when its hash is 64 bytes in hexadecimal that meet a positive difficulty. */
  lemma ValidShareIff(hash: string, difficulty: u64)
    ensures ValidShare(hash, difficulty) ==>
      |hash| == 128 && difficulty > 0 && forall i :: 0 <= i < 128 ==> IsHexDigit(hash[i])
    ensures |hash| == 128 && difficulty > 0 && (forall i :: 0 <= i < 128 ==> IsHexDigit(hash[i])) ==>
      && Decode(hash).Some? && |Decode(hash).value| == 64
      && (ValidShare(hash, difficulty) <==>
            BE(Decode(hash).value) * Pow2(FloorLog2(difficulty)) < Pow2(HASH_BITS))
  {
    DecodeIff(hash);
    if Decode(hash).Some? && |Decode(hash).value| == HASH_BYTES && difficulty > 0 {
      PoolTest(Decode(hash).value, difficulty);
    }
  }

  /** A valid address opens a session without shares at the minimum difficulty. */
  lemma RegisterOutcome(cfg: PoolConfig, st: PoolState, address: string, valid: bool, id: string)
    ensures Register(cfg, st, address, valid, id) ==
      if valid
      then (PoolState(st.miners[id := MinerSession(id, address, cfg.minDifficulty, 0, 0, 0)],
                      st.totalValidShares, st.workHeight), Ok(id))
      else (st, Err(BadAddress))
  {
  }

  /** Why the node submission of a block candidate fails, if it does. */
  ghost predicate NodeError(cfg: PoolConfig, hash: string, address: string, node: Node, error: PoolError) {
    var difficulty := if node.difficultyForSubmit.Some? then node.difficultyForSubmit.value else cfg.poolDifficulty;
    var addressOk := 1 <= |address| <= 100;
    match error
    case BadMinerAddress => !addressOk
    case ZeroNonce => addressOk && Decode(hash).Some? && |Decode(hash).value| == 64
                      && forall i :: 56 <= i < 64 ==> Decode(hash).value[i] == 0
    case ZeroDifficulty => addressOk && difficulty == 0
    case NodeRefused => addressOk && difficulty > 0 && !node.takesBlock
    case _ => false
  }

  lemma {:induction false} ZeroFromLE(s: seq<Byte>)
    ensures FromLE(s) == 0 <==> forall i :: 0 <= i < |s| ==> s[i] == 0
  {
    if s != [] {
      ZeroFromLE(s[1..]);
      assert s == [s[0]] + s[1..];
    }
  }

  /**
   A share of a registered miner is counted as valid or invalid by the session's
   own difficulty.  An invalid one is answered so; a valid one is answered as
   valid unless it also meets the network difficulty and the node does not take it.
   */
  lemma ShareOutcome(cfg: PoolConfig, st: PoolState, id: string, hash: string, node: Node)
    requires id in st.miners
    ensures var m, (st', r) := st.miners[id], SubmitShare(cfg, st, id, hash, node);
            var valid := ValidShare(hash, m.difficulty);
            && st' == PoolState(
                 st.miners[id := MinerSession(m.minerId, m.address, m.difficulty, m.shares + 1,
                                              m.validShares + (if valid then 1 else 0),
                                              m.invalidShares + (if valid then 0 else 1))],
                 st.totalValidShares + (if valid then 1 else 0), st.workHeight)
            && (!valid ==> r == Ok(false))
            && (valid && !ValidShare(hash, NetworkDifficulty(cfg, node)) ==> r == Ok(true))
            && (valid && r != Ok(true) ==> r.Err? && NodeError(cfg, hash, m.address, node, r.error))
            && (valid && r == Ok(true) && ValidShare(hash, NetworkDifficulty(cfg, node)) ==>
                  forall error :: !NodeError(cfg, hash, m.address, node, error))
  {
    if ValidShare(hash, st.miners[id].difficulty) {
      var tail := Decode(hash).value[56..];
      ZeroFromLE(tail);
      assert forall i :: 56 <= i < 64 ==> Decode(hash).value[i] == tail[i - 56];
      assert forall i :: 0 <= i < 8 ==> tail[i] == Decode(hash).value[i + 56];
    }
  }

  function NetworkDifficulty(cfg: PoolConfig, node: Node): u64 {
    if node.difficultyForCheck.Some? then node.difficultyForCheck.value else cfg.poolDifficulty
  }

  /** Requests other than submissions, by cases. */
  lemma HandleOutcome(cfg: PoolConfig, st: PoolState, conn: Connection, m: Message)
    ensures var (st', conn', r) := Handle(cfg, st, conn, m);
            match m
            case Subscribe(address, valid, id) =>
              && st' == Register(cfg, st, address, valid, id).0
              && (valid ==> conn' == Connection(Some(id), false) && r == Subscribed(id))
              && (!valid ==> conn' == conn && r == SubscribeFailed(BadAddress))
            case Authorize =>
              && st' == st
              && (conn.minerId.Some? ==> conn' == Connection(conn.minerId, true) && r == Authorized)
              && (conn.minerId.None? ==> conn' == conn && r == NotSubscribed)
            case OtherMethod => st' == st && conn' == conn && r == OtherResponse
            case Submit(_, _, _) => conn' == conn
  {
  }

  /** Submissions by cases: first the authorisation, then the height of the job, then the share. */
  lemma SubmissionOutcome(cfg: PoolConfig, st: PoolState, conn: Connection, jobId: string, hash: string, node: Node)
    ensures var (st', _, r) := Handle(cfg, st, conn, Submit(jobId, hash, node));
            && (!conn.authorized || conn.minerId.None? ==> r == NotAuthorized && st' == st)
            && (conn.authorized && conn.minerId.Some? ==>
                  if 1 <= HeightOf(jobId) < st.workHeight then r == Stale && st' == st
                  else
                    var (after, answer) := SubmitShare(cfg, st, conn.minerId.value, hash, node);
                    && st' == after
                    && (answer == Ok(true) ==> r == ShareAccepted)
                    && (answer == Ok(false) ==> r == ShareRejected)
                    && (answer.Err? ==> r == ShareError(answer.error)))
  {
  }

  // ---------------------------------------------------------------- runs of the whole pool

  /** The pool and its connections, by connection number; unknown numbers are new connections. */
  datatype World = World(pool: PoolState, connections: map<nat, Connection>)

  datatype Event =
    | Request(connection: nat, message: Message)
    | UpdateWork(height: u64)

  function ConnectionOf(w: World, c: nat): Connection {
    if c in w.connections then w.connections[c] else NEW_CONNECTION
  }

  function Step(cfg: PoolConfig, w: World, ev: Event): World {
    match ev
    case Request(c, m) =>
      var (pool, conn, _) := Handle(cfg, w.pool, ConnectionOf(w, c), m);
      World(pool, w.connections[c := conn])
    case UpdateWork(height) => w.(pool := w.pool.(workHeight := height))
  }

  function Run(cfg: PoolConfig, evs: seq<Event>): World {
    if evs == [] then World(PoolState(map[], 0, 1), map[]) else Step(cfg, Run(cfg, evs[..|evs| - 1]), evs[|evs| - 1])
  }

  predicate IsSubscribe(ev: Event) {
    ev.Request? && ev.message.Subscribe?
  }

  /** The UUIDs drawn along the run are all different. */
  ghost predicate FreshIds(evs: seq<Event>) {
    forall i, j :: 0 <= i < j < |evs| && IsSubscribe(evs[i]) && IsSubscribe(evs[j]) ==>
      evs[i].message.freshId != evs[j].message.freshId
  }

  ghost function ValidCounts(miners: map<string, MinerSession>): map<string, nat> {
    map id | id in miners :: miners[id].validShares
  }

  ghost function ShareCounts(miners: map<string, MinerSession>): map<string, nat> {
    map id | id in miners :: miners[id].shares
  }

  ghost predicate PoolOk(st: PoolState) {
    && (forall id :: id in st.miners ==>
          && st.miners[id].minerId == id
          && st.miners[id].shares == st.miners[id].validShares + st.miners[id].invalidShares)
    && st.totalValidShares == SumMap(ValidCounts(st.miners))
  }

  ghost predicate ConnectionOk(st: PoolState, conn: Connection) {
    && (conn.authorized ==> conn.minerId.Some?)
    && (conn.minerId.Some? ==> conn.minerId.value in st.miners)
  }

  ghost predicate ConnectionsOk(w: World) {
    forall c :: c in w.connections ==> ConnectionOk(w.pool, w.connections[c])
  }

  ghost predicate WorldOk(w: World) {
    PoolOk(w.pool) && ConnectionsOk(w)
  }

  lemma RegisterKeepsPool(cfg: PoolConfig, st: PoolState, address: string, valid: bool, id: string)
    requires PoolOk(st) && id !in st.miners
    ensures PoolOk(Register(cfg, st, address, valid, id).0)
  {
    var st' := Register(cfg, st, address, valid, id).0;
    if valid {
      assert ValidCounts(st'.miners) == ValidCounts(st.miners)[id := 0];
      SumMapInsert(ValidCounts(st.miners), id, 0);
    }
  }

  /** The counters stay consistent whatever the node answers. */
  lemma SubmitKeepsPool(cfg: PoolConfig, st: PoolState, id: string, hash: string, node: Node)
    requires PoolOk(st)
    ensures PoolOk(SubmitShare(cfg, st, id, hash, node).0)
    ensures SubmitShare(cfg, st, id, hash, node).0.miners.Keys == st.miners.Keys
  {
    if id in st.miners {
      CountKeepsPool(st, id, ValidShare(hash, st.miners[id].difficulty));
    }
  }

  lemma CountKeepsPool(st: PoolState, id: string, valid: bool)
    requires PoolOk(st) && id in st.miners
    ensures PoolOk(CountShare(st, id, valid)) && CountShare(st, id, valid).miners.Keys == st.miners.Keys
  {
    CountMoves(st.miners, id, valid);
  }

  lemma CountMoves(miners: map<string, MinerSession>, id: string, valid: bool)
    requires id in miners
    ensures SumMap(ValidCounts(miners[id := Counted(miners[id], valid)]))
      == SumMap(ValidCounts(miners)) + if valid then 1 else 0
  {
    var v := Counted(miners[id], valid).validShares;
    assert ValidCounts(miners[id := Counted(miners[id], valid)]) == ValidCounts(miners)[id := v];
    SumMapUpdate(ValidCounts(miners), id, v);
  }

  lemma StepKeepsWorld(cfg: PoolConfig, w: World, ev: Event)
    requires WorldOk(w) && (IsSubscribe(ev) ==> ev.message.freshId !in w.pool.miners)
    ensures WorldOk(Step(cfg, w, ev))
    ensures Step(cfg, w, ev).pool.miners.Keys
      <= w.pool.miners.Keys + if IsSubscribe(ev) then {ev.message.freshId} else {}
  {
    if ev.Request? {
      var conn := ConnectionOf(w, ev.connection);
      match ev.message {
        case Subscribe(address, valid, id) =>
          RegisterKeepsPool(cfg, w.pool, address, valid, id);
        case Submit(jobId, hash, node) =>
          if conn.minerId.Some? {
            SubmitKeepsPool(cfg, w.pool, conn.minerId.value, hash, node);
          }
        case Authorize =>
        case OtherMethod =>
      }
    }
  }

  ghost function UsedIds(evs: seq<Event>): set<string> {
    set i | 0 <= i < |evs| && IsSubscribe(evs[i]) :: evs[i].message.freshId
  }

  /** In every run: consistent counters, and connections that only ever hold registered miners. */
  lemma {:induction false} RunKeepsWorld(cfg: PoolConfig, evs: seq<Event>)
    requires FreshIds(evs)
    ensures WorldOk(Run(cfg, evs))
    ensures Run(cfg, evs).pool.miners.Keys <= UsedIds(evs)
  {
    if evs == [] {
      assert ValidCounts(map[]) == map[];
    } else {
      var init, last := evs[..|evs| - 1], evs[|evs| - 1];
      RunKeepsWorld(cfg, init);
      if IsSubscribe(last) {
        FreshIsUnused(evs);
      }
      StepKeepsWorld(cfg, Run(cfg, init), last);
      UsedIdsGrow(evs);
    }
  }

  lemma FreshIsUnused(evs: seq<Event>)
    requires FreshIds(evs) && evs != [] && IsSubscribe(evs[|evs| - 1])
    ensures evs[|evs| - 1].message.freshId !in UsedIds(evs[..|evs| - 1])
  {
    var init := evs[..|evs| - 1];
    forall i | 0 <= i < |init| && IsSubscribe(init[i])
      ensures init[i].message.freshId != evs[|evs| - 1].message.freshId
    {
      assert init[i] == evs[i];
    }
  }

  lemma UsedIdsGrow(evs: seq<Event>)
    requires evs != []
    ensures var init, last := evs[..|evs| - 1], evs[|evs| - 1];
            UsedIds(init) + (if IsSubscribe(last) then {last.message.freshId} else {}) <= UsedIds(evs)
  {
    var init := evs[..|evs| - 1];
    forall id | id in UsedIds(init)
      ensures id in UsedIds(evs)
    {
      var i :| 0 <= i < |init| && IsSubscribe(init[i]) && init[i].message.freshId == id;
      assert evs[i] == init[i];
    }
  }

  predicate CountsShare(r: Response) {
    r.ShareAccepted? || r.ShareRejected? || r.ShareError?
  }

  /** How many submissions were answered as shares: accepted, rejected, or failed at the node. */
  function SharesAnswered(cfg: PoolConfig, evs: seq<Event>): nat {
    if evs == [] then 0
    else
      var init, last := evs[..|evs| - 1], evs[|evs| - 1];
      SharesAnswered(cfg, init)
      + match last
        case UpdateWork(_) => 0
        case Request(c, m) =>
          if CountsShare(Handle(cfg, Run(cfg, init).pool, ConnectionOf(Run(cfg, init), c), m).2) then 1 else 0
  }

  lemma ShareMoves(miners: map<string, MinerSession>, id: string, valid: bool)
    requires id in miners
    ensures SumMap(ShareCounts(miners[id := Counted(miners[id], valid)])) == SumMap(ShareCounts(miners)) + 1
  {
    assert ShareCounts(miners[id := Counted(miners[id], valid)]) == ShareCounts(miners)[id := miners[id].shares + 1];
    SumMapUpdate(ShareCounts(miners), id, miners[id].shares + 1);
  }

  /** One request counts a share exactly when it is answered as one: no authorisation, no share; no stale share. */
  lemma HandleCountsShares(cfg: PoolConfig, st: PoolState, conn: Connection, m: Message)
    requires ConnectionOk(st, conn) && (m.Subscribe? ==> m.freshId !in st.miners)
    ensures var (st', _, r) := Handle(cfg, st, conn, m);
            SumMap(ShareCounts(st'.miners)) == SumMap(ShareCounts(st.miners)) + if CountsShare(r) then 1 else 0
  {
    match m {
      case Subscribe(address, valid, id) =>
        if valid {
          assert ShareCounts(Register(cfg, st, address, valid, id).0.miners) == ShareCounts(st.miners)[id := 0];
          SumMapInsert(ShareCounts(st.miners), id, 0);
        }
      case Submit(jobId, hash, node) =>
        if conn.minerId.Some? {
          var id := conn.minerId.value;
          ShareMoves(st.miners, id, ValidShare(hash, st.miners[id].difficulty));
        }
      case Authorize =>
      case OtherMethod =>
    }
  }

  /** Over every run the shares of all sessions add up to the submissions that were answered as shares. */
  lemma {:induction false} SharesAddUp(cfg: PoolConfig, evs: seq<Event>)
    requires FreshIds(evs)
    ensures SumMap(ShareCounts(Run(cfg, evs).pool.miners)) == SharesAnswered(cfg, evs)
  {
    if evs == [] {
      assert ShareCounts(map[]) == map[];
    } else {
      var init, last := evs[..|evs| - 1], evs[|evs| - 1];
      SharesAddUp(cfg, init);
      RunKeepsWorld(cfg, init);
      if IsSubscribe(last) {
        FreshIsUnused(evs);
      }
      if last.Request? {
        var w := Run(cfg, init);
        HandleCountsShares(cfg, w.pool, ConnectionOf(w, last.connection), last.message);
      }
    }
  }

  lemma HandleKeepsConnections(cfg: PoolConfig, st: PoolState, conn: Connection, m: Message)
    requires ConnectionOk(st, conn)
    ensures var (st', conn', r) := Handle(cfg, st, conn, m);
            ConnectionOk(st', conn') && st.miners.Keys <= st'.miners.Keys && r != ShareError(MinerNotFound)
  {
    match m {
      case Subscribe(_, _, _) =>
      case Submit(jobId, hash, node) =>
        if conn.minerId.Some? {
          var id := conn.minerId.value;
          assert ShareAnswer(cfg, ValidShare(hash, st.miners[id].difficulty), hash, st.miners[id].address, node)
            != Err(MinerNotFound);
        }
      case Authorize =>
      case OtherMethod =>
    }
  }

  /** Registered ids are never removed, so in every run, repeated UUIDs or not, connections hold registered ids. */
  lemma {:induction false} RunKeepsConnections(cfg: PoolConfig, evs: seq<Event>)
    ensures ConnectionsOk(Run(cfg, evs))
  {
    if evs != [] {
      var init, last := evs[..|evs| - 1], evs[|evs| - 1];
      RunKeepsConnections(cfg, init);
      if last.Request? {
        var w := Run(cfg, init);
        HandleKeepsConnections(cfg, w.pool, ConnectionOf(w, last.connection), last.message);
      }
    }
  }

  /** No request on any connection is ever answered with "Miner not found". */
  lemma NeverMinerNotFound(cfg: PoolConfig, evs: seq<Event>, c: nat, m: Message)
    ensures var w := Run(cfg, evs);
            Handle(cfg, w.pool, ConnectionOf(w, c), m).2 != ShareError(MinerNotFound)
  {
    RunKeepsConnections(cfg, evs);
    var w := Run(cfg, evs);
    HandleKeepsConnections(cfg, w.pool, ConnectionOf(w, c), m);
  }

  // ---------------------------------------------------------------- a share the CPU miner found

  /** A share the CPU miner found at difficulty d counts as valid for every session whose difficulty is at most d. */
  lemma MinedShareCounts(cfg: PoolConfig, st: PoolState, id: string, h: Digest, d: u64, node: Node)
    requires id in st.miners && 0 < st.miners[id].difficulty <= d && MinerAccepts(h, d)
    ensures SubmitShare(cfg, st, id, Encode(h), node).0 == CountShare(st, id, true)
    ensures SubmitShare(cfg, st, id, Encode(h), node).1 != Ok(false)
  {
    EncodeRoundTrip(h);
    MinerShareIsAccepted(h, d, st.miners[id].difficulty);
  }

  /** The pool takes the nonce of a miner's job for a height below its work. */
  predicate LooksStale(nonce: u64, workHeight: nat) {
    var height := ReadAsDecimal(nonce);
    height.Some? && 0 < height.value < workHeight
  }

  /**
   What becomes of such a share when the miner sends it, under the job identifier
   the miner gives it: it is refused as stale, and counts nowhere, if and only if
   the hexadecimal digits of its nonce read as a decimal number from 1 to below
   the height of the current work; otherwise it counts as valid.
   */
  lemma MinedShareOutcome(cfg: PoolConfig, st: PoolState, conn: Connection, nonce: u64, h: Digest, d: u64, node: Node)
    requires conn.authorized && conn.minerId.Some? && conn.minerId.value in st.miners
    requires 0 < st.miners[conn.minerId.value].difficulty <= d && MinerAccepts(h, d)
    ensures |Encode(h)| == 128
    ensures var (st', conn', r) := Handle(cfg, st, conn, Submit(JobIdOf(nonce, Encode(h)), Encode(h), node));
            && conn' == conn
            && (LooksStale(nonce, st.workHeight) ==> r == Stale && st' == st)
            && (!LooksStale(nonce, st.workHeight) ==>
                  (r == ShareAccepted || r.ShareError?) && st' == CountShare(st, conn.minerId.value, true))
  {
    EncodeLength(h);
    HeightOfMinerJob(nonce, Encode(h));
    if !LooksStale(nonce, st.workHeight) {
      MinedShareCounts(cfg, st, conn.minerId.value, h, d, node);
    }
  }

  /** Nonce 5 is stale at height 1000 however hard its hash; nonce 10, written "a", never is. */
  lemma SmallNonceLooksStale(workHeight: nat)
    ensures LooksStale(5, 1000) && !LooksStale(10, workHeight)
  {
  }
}
