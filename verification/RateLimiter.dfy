/**
 Admission control of the Stratum server (src/stratum.rs): a fixed one-second
 window per address, and a block after an excess.  Times are nanoseconds.
 */
module RateLimiter {

  import opened Words
  import opened Outcomes

  const SECOND: nat := 1_000_000_000

  type Ip = nat

  datatype IpRateLimit = IpRateLimit(connectionCount: nat, lastReset: nat, blockedUntil: Option<nat>)

  datatype Config = Config(maxConnectionsPerIp: nat, blockDuration: nat, maxClients: nat)

  type Limits = map<Ip, IpRateLimit>

  /** One connection attempt: the clock at the block check and at the rate check, and the clients then connected. */
  datatype Attempt = Attempt(ip: Ip, blockCheck: nat, rateCheck: nat, clients: nat)

  datatype Verdict = Blocked | RateLimited | PoolFull | Admitted

  // ---------------------------------------------------------------- steps on values

  predicate IsBlocked(limits: Limits, ip: Ip, now: nat) {
    && ip in limits
    && limits[ip].blockedUntil.Some?
    && now < limits[ip].blockedUntil.value
  }

  /** The entry after `check_ip_rate_limit` has counted one more connection. */
  function Count(limits: Limits, ip: Ip, now: nat): IpRateLimit {
    var limit := if ip in limits then limits[ip] else IpRateLimit(0, now, None);
    var current := if now >= limit.lastReset + SECOND then limit.(connectionCount := 0, lastReset := now) else limit;
    current.(connectionCount := current.connectionCount + 1)
  }

  function CheckRate(cfg: Config, limits: Limits, ip: Ip, now: nat): (Limits, bool) {
    var limit := Count(limits, ip, now);
    if limit.connectionCount > cfg.maxConnectionsPerIp then
      (limits[ip := limit.(blockedUntil := Some(now + cfg.blockDuration))], false)
    else (limits[ip := limit], true)
  }

  /** One turn of the accept loop. */
  function Accept(cfg: Config, limits: Limits, a: Attempt): (Limits, Verdict) {
    if IsBlocked(limits, a.ip, a.blockCheck) then (limits, Blocked)
    else
      var (next, ok) := CheckRate(cfg, limits, a.ip, a.rateCheck);
      (next, if !ok then RateLimited else if a.clients >= cfg.maxClients then PoolFull else Admitted)
  }

  // ---------------------------------------------------------------- the server

  class StratumServer {
    const config: Config
    var ipRateLimits: Limits

    constructor (config: Config)
      ensures this.config == config && ipRateLimits == map[]
    {
      this.config := config;
      ipRateLimits := map[];
    }

    method CheckIpRateLimit(ip: Ip, now: nat) returns (ok: bool)
      modifies this
      ensures (ipRateLimits, ok) == CheckRate(config, old(ipRateLimits), ip, now)
    {
      if ip !in ipRateLimits {
        ipRateLimits := ipRateLimits[ip := IpRateLimit(0, now, None)];
      }
      var limit := ipRateLimits[ip];
      if now >= limit.lastReset + SECOND {
        limit := limit.(connectionCount := 0);
        limit := limit.(lastReset := now);
      }
      limit := limit.(connectionCount := limit.connectionCount + 1);
      if limit.connectionCount > config.maxConnectionsPerIp {
        limit := limit.(blockedUntil := Some(now + config.blockDuration));
        ipRateLimits := ipRateLimits[ip := limit];
        assert ipRateLimits == old(ipRateLimits)[ip := limit];
        return false;
      }
      ipRateLimits := ipRateLimits[ip := limit];
      assert ipRateLimits == old(ipRateLimits)[ip := limit];
      return true;
    }

    method AcceptConnection(a: Attempt) returns (v: Verdict)
      modifies this
      ensures (ipRateLimits, v) == Accept(config, old(ipRateLimits), a)
    {
      if IsBlocked(ipRateLimits, a.ip, a.blockCheck) {
        return Blocked;
      }
      var ok := CheckIpRateLimit(a.ip, a.rateCheck);
      if !ok {
        return RateLimited;
      }
      if a.clients >= config.maxClients {
        return PoolFull;
      }
      return Admitted;
    }
  }

  // ---------------------------------------------------------------- traces

  function Run(cfg: Config, trace: seq<Attempt>): Limits {
    if trace == [] then map[] else Accept(cfg, Run(cfg, trace[..|trace| - 1]), trace[|trace| - 1]).0
  }

  /** The verdict on attempt i of a trace. */
  function VerdictAt(cfg: Config, trace: seq<Attempt>, i: nat): Verdict
    requires i < |trace|
  {
    Accept(cfg, Run(cfg, trace[..i]), trace[i]).1
  }

  /**
   One attempt by cases.  A block that has not run out refuses it and changes
   nothing.  Otherwise it is counted, in a new window when the last one began a
   second ago or there is none; above the limit it is refused and the address is
   blocked; within the limit it is admitted if a client place is free.
   */
  lemma AcceptOutcome(cfg: Config, limits: Limits, a: Attempt)
    ensures var (next, v) := Accept(cfg, limits, a);
            if a.ip in limits && limits[a.ip].blockedUntil.Some? && a.blockCheck < limits[a.ip].blockedUntil.value
            then v == Blocked && next == limits
            else
              var isNew := a.ip !in limits || a.rateCheck >= limits[a.ip].lastReset + 1_000_000_000;
              var count := if isNew then 1 else limits[a.ip].connectionCount + 1;
              var reset := if isNew then a.rateCheck else limits[a.ip].lastReset;
              var until := if count > cfg.maxConnectionsPerIp then Some(a.rateCheck + cfg.blockDuration)
                           else if a.ip in limits then limits[a.ip].blockedUntil else None;
              && next == limits[a.ip := IpRateLimit(count, reset, until)]
              && (count > cfg.maxConnectionsPerIp ==> v == RateLimited)
              && (count <= cfg.maxConnectionsPerIp && a.clients >= cfg.maxClients ==> v == PoolFull)
              && (count <= cfg.maxConnectionsPerIp && a.clients < cfg.maxClients ==> v == Admitted)
  {
  }

  /** The accept loop is sequential and its clock never runs backwards. */
  ghost predicate ClockOk(trace: seq<Attempt>) {
    && (forall i :: 0 <= i < |trace| ==> trace[i].blockCheck <= trace[i].rateCheck)
    && forall i, j :: 0 <= i < j < |trace| ==> trace[i].rateCheck <= trace[j].blockCheck
  }

  predicate Inside(a: Attempt, ip: Ip, from: nat) {
    a.ip == ip && from <= a.rateCheck < from + SECOND
  }

  /** Connections from ip admitted in the half-open second that begins at `from`. */
  function AdmittedIn(cfg: Config, trace: seq<Attempt>, ip: Ip, from: nat): nat {
    if trace == [] then 0
    else
      var init, last := trace[..|trace| - 1], trace[|trace| - 1];
      AdmittedIn(cfg, init, ip, from)
      + if Inside(last, ip, from) && Accept(cfg, Run(cfg, init), last).1 == Admitted then 1 else 0
  }

  /** The bound that holds as the trace unfolds, by where the current window of the address lies. */
  ghost predicate WindowBound(cfg: Config, limits: Limits, ip: Ip, from: nat, admitted: nat, now: nat) {
    (now < from ==> admitted == 0) &&
    if ip !in limits then admitted == 0
    else
      var reset, count := limits[ip].lastReset, limits[ip].connectionCount;
      var used := Min(count, cfg.maxConnectionsPerIp);
      && reset <= now
      && count >= 1
      && if reset < from then admitted <= used - Min(used, 1)
         else if reset < from + SECOND then admitted <= cfg.maxConnectionsPerIp - Min(cfg.maxConnectionsPerIp, 1) + used
         else admitted <= SecondBound(cfg)
  }

  /** 2 * max - 1, or nothing at all when max is zero. */
  function SecondBound(cfg: Config): nat {
    if cfg.maxConnectionsPerIp == 0 then 0 else 2 * cfg.maxConnectionsPerIp - 1
  }

  lemma AcceptKeepsBound(cfg: Config, limits: Limits, ip: Ip, from: nat, admitted: nat, now: nat, a: Attempt)
    requires WindowBound(cfg, limits, ip, from, admitted, now)
    requires now <= a.blockCheck <= a.rateCheck
    ensures var (next, v) := Accept(cfg, limits, a);
            WindowBound(cfg, next, ip, from,
                        admitted + if Inside(a, ip, from) && v == Admitted then 1 else 0, a.rateCheck)
  {
  }

  lemma BoundedBySecond(cfg: Config, limits: Limits, ip: Ip, from: nat, admitted: nat, now: nat)
    requires WindowBound(cfg, limits, ip, from, admitted, now)
    ensures admitted <= SecondBound(cfg)
  {
  }

  function LastClock(trace: seq<Attempt>): nat {
    if trace == [] then 0 else trace[|trace| - 1].rateCheck
  }

  lemma {:induction false} TraceKeepsBound(cfg: Config, trace: seq<Attempt>, ip: Ip, from: nat)
    requires ClockOk(trace)
    ensures WindowBound(cfg, Run(cfg, trace), ip, from, AdmittedIn(cfg, trace, ip, from), LastClock(trace))
  {
    if trace != [] {
      var init, last := trace[..|trace| - 1], trace[|trace| - 1];
      TraceKeepsBound(cfg, init, ip, from);
      AcceptKeepsBound(cfg, Run(cfg, init), ip, from, AdmittedIn(cfg, init, ip, from), LastClock(init), last);
    }
  }

  /** Over any trace, any half-open second admits at most 2 * max - 1 connections from one address. */
  lemma AdmissionsPerSecond(cfg: Config, trace: seq<Attempt>, ip: Ip, from: nat)
    requires ClockOk(trace)
    ensures AdmittedIn(cfg, trace, ip, from) <= SecondBound(cfg) <= 2 * cfg.maxConnectionsPerIp
  {
    TraceKeepsBound(cfg, trace, ip, from);
    BoundedBySecond(cfg, Run(cfg, trace), ip, from, AdmittedIn(cfg, trace, ip, from), LastClock(trace));
  }

  /** A block once set is never shortened. */
  lemma {:induction false} BlockPersists(cfg: Config, trace: seq<Attempt>, i: nat, n: nat)
    requires ClockOk(trace) && i < n <= |trace| && VerdictAt(cfg, trace, i) == RateLimited
    ensures var limits := Run(cfg, trace[..n]);
            && trace[i].ip in limits
            && limits[trace[i].ip].blockedUntil.Some?
            && limits[trace[i].ip].blockedUntil.value >= trace[i].rateCheck + cfg.blockDuration
    decreases n
  {
    assert trace[..n][..n - 1] == trace[..n - 1] && trace[..n][n - 1] == trace[n - 1];
    if i < n - 1 {
      BlockPersists(cfg, trace, i, n - 1);
    }
  }

  /** After an over-limit rejection no connection from that address gets past the block check until it has run out. */
  lemma NoAdmissionWhileBlocked(cfg: Config, trace: seq<Attempt>, i: nat, j: nat)
    requires ClockOk(trace) && i < j < |trace| && trace[j].ip == trace[i].ip
    requires VerdictAt(cfg, trace, i) == RateLimited
    ensures trace[j].blockCheck < trace[i].rateCheck + cfg.blockDuration ==> VerdictAt(cfg, trace, j) == Blocked
    ensures VerdictAt(cfg, trace, j) == Admitted ==> trace[j].rateCheck >= trace[i].rateCheck + cfg.blockDuration
  {
    BlockPersists(cfg, trace, i, j);
  }

  /** A block in force comes from some over-limit rejection. */
  lemma {:induction false} BlockHasCause(cfg: Config, trace: seq<Attempt>, ip: Ip) returns (i: nat)
    requires ip in Run(cfg, trace) && Run(cfg, trace)[ip].blockedUntil.Some?
    ensures i < |trace| && trace[i].ip == ip && VerdictAt(cfg, trace, i) == RateLimited
    ensures Run(cfg, trace)[ip].blockedUntil.value == trace[i].rateCheck + cfg.blockDuration
  {
    var init, last := trace[..|trace| - 1], trace[|trace| - 1];
    if last.ip == ip && Accept(cfg, Run(cfg, init), last).1 == RateLimited {
      i := |trace| - 1;
    } else {
      i := BlockHasCause(cfg, init, ip);
      assert init[..i] == trace[..i];
    }
  }

  /**
   Blocks begin and end with rejections: attempt j is blocked exactly when some
   earlier attempt of its address was rejected for the limit less than the block
   duration before.
   */
  lemma BlockedIff(cfg: Config, trace: seq<Attempt>, j: nat)
    requires ClockOk(trace) && j < |trace|
    ensures VerdictAt(cfg, trace, j) == Blocked <==>
      exists i :: 0 <= i < j && trace[i].ip == trace[j].ip && VerdictAt(cfg, trace, i) == RateLimited
                  && trace[j].blockCheck < trace[i].rateCheck + cfg.blockDuration
  {
    if VerdictAt(cfg, trace, j) == Blocked {
      var i := BlockHasCause(cfg, trace[..j], trace[j].ip);
      assert trace[..j][..i] == trace[..i];
      assert VerdictAt(cfg, trace, i) == RateLimited;
    }
    if i :| 0 <= i < j && trace[i].ip == trace[j].ip && VerdictAt(cfg, trace, i) == RateLimited
            && trace[j].blockCheck < trace[i].rateCheck + cfg.blockDuration {
      NoAdmissionWhileBlocked(cfg, trace, i, j);
    }
  }

  /** Once every block of its address has run out, the first attempt in a new window is admitted. */
  lemma AdmittedAfterBlock(cfg: Config, trace: seq<Attempt>, j: nat)
    requires ClockOk(trace) && j < |trace| && cfg.maxConnectionsPerIp > 0 && trace[j].clients < cfg.maxClients
    requires forall i :: 0 <= i < j && trace[i].ip == trace[j].ip && VerdictAt(cfg, trace, i) == RateLimited ==>
               trace[i].rateCheck + cfg.blockDuration <= trace[j].blockCheck
    requires trace[j].ip in Run(cfg, trace[..j]) ==>
               Run(cfg, trace[..j])[trace[j].ip].lastReset + SECOND <= trace[j].rateCheck
    ensures VerdictAt(cfg, trace, j) == Admitted
  {
    BlockedIff(cfg, trace, j);
    AcceptOutcome(cfg, Run(cfg, trace[..j]), trace[j]);
  }

  // ---------------------------------------------------------------- the bound is reached

  /** A well-timed trace that has reached time t at most. */
  ghost predicate Until(trace: seq<Attempt>, t: nat) {
    ClockOk(trace) && forall i :: 0 <= i < |trace| ==> trace[i].rateCheck <= t
  }

  /** The trace grown by one attempt at time t, when that attempt is admitted. */
  lemma AdmitOne(cfg: Config, trace: seq<Attempt>, ip: Ip, t: nat, from: nat)
    returns (next: seq<Attempt>)
    requires cfg.maxClients > 0 && Until(trace, t)
    requires ip in Run(cfg, trace) ==> Run(cfg, trace)[ip].blockedUntil == None
    requires Count(Run(cfg, trace), ip, t).connectionCount <= cfg.maxConnectionsPerIp
    ensures Until(next, t)
    ensures ip in Run(cfg, next) && Run(cfg, next)[ip] == Count(Run(cfg, trace), ip, t)
    ensures Run(cfg, next)[ip].blockedUntil == None
    ensures AdmittedIn(cfg, next, ip, from)
      == AdmittedIn(cfg, trace, ip, from) + if from <= t < from + SECOND then 1 else 0
  {
    next := trace + [Attempt(ip, t, t, 0)];
    assert next[..|trace|] == trace;
  }

  /** Within one window n more attempts that stay under the limit are all admitted. */
  lemma {:induction false} AdmitMany(cfg: Config, trace: seq<Attempt>, ip: Ip, n: nat, t: nat, from: nat)
    returns (next: seq<Attempt>)
    requires cfg.maxClients > 0 && Until(trace, t) && from <= t < from + SECOND
    requires ip in Run(cfg, trace)
    requires var l := Run(cfg, trace)[ip];
             l.blockedUntil == None && t < l.lastReset + SECOND && l.connectionCount + n <= cfg.maxConnectionsPerIp
    ensures Until(next, t) && ip in Run(cfg, next)
    ensures Run(cfg, next)[ip].lastReset == Run(cfg, trace)[ip].lastReset && Run(cfg, next)[ip].blockedUntil == None
    ensures AdmittedIn(cfg, next, ip, from) == AdmittedIn(cfg, trace, ip, from) + n
    decreases n
  {
    if n == 0 {
      next := trace;
    } else {
      var one := AdmitOne(cfg, trace, ip, t, from);
      next := AdmitMany(cfg, one, ip, n - 1, t, from);
    }
  }

  /** For every positive limit some well-timed trace has 2 * max - 1 admissions within one half-open second. */
  lemma BoundIsReached(cfg: Config, ip: Ip) returns (trace: seq<Attempt>, from: nat)
    requires cfg.maxClients > 0 && cfg.maxConnectionsPerIp > 0
    ensures ClockOk(trace) && AdmittedIn(cfg, trace, ip, from) == SecondBound(cfg)
  {
    var m := cfg.maxConnectionsPerIp;
    from := SECOND / 2;
    trace := AdmitOne(cfg, [], ip, 0, from);
    trace := AdmitMany(cfg, trace, ip, m - 1, from, from);
    trace := AdmitOne(cfg, trace, ip, SECOND, from);
    trace := AdmitMany(cfg, trace, ip, m - 1, SECOND, from);
  }
}
