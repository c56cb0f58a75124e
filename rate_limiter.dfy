/**
 * SmartRateLimiter: a per-key sliding-window admission controller with
 * exponential punishment for repeat offenders.
 *
 * Time is explicit: `Check` and `Cleanup` take the current instant `now`
 * (milliseconds), which never decreases from one call to the next.
 */
module RateLimiter {
  import opened Basics
  import opened SlidingWindow

  /** `punishmentMs` is optional; `None` is the absent field. */
  datatype LimiterConfig = LimiterConfig(windowMs: int, limit: int, punishmentMs: Option<int>)

  /** Per-key bookkeeping: admitted instants (oldest first), block deadline, escalation count. */
  datatype ClientState = ClientState(timestamps: seq<int>, blockedUntil: int, violationCount: nat)

  /** The decision handed back to the caller; `resetAt` is an instant in milliseconds. */
  datatype RateLimitResult = RateLimitResult(allowed: bool, remaining: int, resetAt: int, totalRequests: nat)

  /** The configurations the limiter is meant to be built with. */
  predicate ValidConfig(cfg: LimiterConfig)
  {
    cfg.windowMs >= 1 && cfg.limit >= 1
  }

  /** The state `getClientState` creates for a key seen for the first time. */
  const NewClient := ClientState([], 0, 0)

  function Pow2(n: nat): (r: nat)
    ensures r >= 1
  {
    if n == 0 then 1 else 2 * Pow2(n - 1)
  }

  /** `punishmentMs || 0`: an absent (or zero) punishment is no punishment. */
  function BaseBlockTime(punishmentMs: Option<int>): (base: int)
  {
    match punishmentMs
    case None => 0
    case Some(p) => p
  }

  /** The penalty for the `violations`-th consecutive violation: base · 2^(violations-1), or 0. */
  function BlockDuration(punishmentMs: Option<int>, violations: nat): (duration: int)
    requires violations >= 1
  {
    var base := BaseBlockTime(punishmentMs);
    if base > 0 then base * Pow2(violations - 1) else 0
  }

  /** `timestamps[0] || now`: the oldest timestamp, or `now` when there is none. */
  function OldestOr(ts: seq<int>, now: int): (oldest: int)
  {
    if |ts| > 0 then ts[0] else now
  }

  /** The state `applyPunishment` leaves behind (timestamps already trimmed). */
  function Punish(cfg: LimiterConfig, st: ClientState, now: int): (punished: ClientState)
  {
    var v := st.violationCount + 1;
    var nextFreeSlot := OldestOr(st.timestamps, now) + cfg.windowMs;
    st.(violationCount := v, blockedUntil := Max(now + BlockDuration(cfg.punishmentMs, v), nextFreeSlot))
  }

  /** One `check` on one key's state: the new state and the decision. */
  function Decide(cfg: LimiterConfig, st: ClientState, now: int): (decision: (ClientState, RateLimitResult))
  {
    if now < st.blockedUntil then
      (st, RateLimitResult(false, 0, st.blockedUntil, |st.timestamps|))
    else
      var trimmed := st.(timestamps := DropStale(st.timestamps, now - cfg.windowMs));
      if |trimmed.timestamps| >= cfg.limit then
        var p := Punish(cfg, trimmed, now);
        (p, RateLimitResult(false, 0, p.blockedUntil, |p.timestamps|))
      else
        var ts := trimmed.timestamps + [now];
        var vc := if st.violationCount > 0 && |ts| == 1 then 0 else st.violationCount;
        (ClientState(ts, st.blockedUntil, vc),
         RateLimitResult(true, cfg.limit - |ts|, OldestOr(ts, now) + cfg.windowMs, |ts|))
  }

  /** The key's current state, or the one `getClientState` would create. */
  function Lookup<K>(m: map<K, ClientState>, key: K): (st: ClientState)
  {
    if key in m then m[key] else NewClient
  }

  /** `check(key)` on the whole key-to-state map. */
  function CheckKey<K>(cfg: LimiterConfig, m: map<K, ClientState>, key: K, now: int): (outcome: (map<K, ClientState>, RateLimitResult))
  {
    var d := Decide(cfg, Lookup(m, key), now);
    (m[key := d.0], d.1)
  }

  /** The eviction condition of `cleanup`: not blocked, and no timestamp newer than the window start. */
  predicate Evictable(cfg: LimiterConfig, st: ClientState, now: int)
  {
    st.blockedUntil < now &&
    (|st.timestamps| == 0 || st.timestamps[|st.timestamps| - 1] < now - cfg.windowMs)
  }

  /** The map `cleanup` leaves. */
  function Sweep<K>(cfg: LimiterConfig, m: map<K, ClientState>, now: int): (kept: map<K, ClientState>)
  {
    map k | k in m && !Evictable(cfg, m[k], now) :: m[k]
  }

  /** What holds of every stored state: sorted, at most `limit` long, nothing later than `clock`. */
  predicate WellFormed(cfg: LimiterConfig, st: ClientState, clock: int)
  {
    Sorted(st.timestamps) && |st.timestamps| <= cfg.limit && AllAtMost(st.timestamps, clock)
  }

  /** A sequence of `check` calls on one key at the given instants. */
  function Run(cfg: LimiterConfig, st: ClientState, times: seq<int>): (trace: (ClientState, seq<RateLimitResult>))
    decreases |times|
  {
    if times == [] then (st, [])
    else
      var d := Decide(cfg, st, times[0]);
      var rest := Run(cfg, d.0, times[1..]);
      (rest.0, [d.1] + rest.1)
  }

  // ---------------------------------------------------------------------
  // Properties of a single check

  /** While blocked, a check rejects with the stored deadline and leaves the state alone. */
  lemma BlockedRejectsUnchanged(cfg: LimiterConfig, st: ClientState, now: int)
    requires now < st.blockedUntil
    ensures Decide(cfg, st, now).0 == st
    ensures Decide(cfg, st, now).1 == RateLimitResult(false, 0, st.blockedUntil, |st.timestamps|)
  {
  }

  /** After an unblocked check, the key's timestamps are sorted and all lie in (now - windowMs, now]. */
  lemma TrimmedToWindow(cfg: LimiterConfig, st: ClientState, clock: int, now: int)
    requires ValidConfig(cfg) && WellFormed(cfg, st, clock) && clock <= now
    requires st.blockedUntil <= now
    ensures var ts := Decide(cfg, st, now).0.timestamps;
      Sorted(ts) && forall i :: 0 <= i < |ts| ==> now - cfg.windowMs < ts[i] <= now
  {
    var ws := now - cfg.windowMs;
    var kept := DropStale(st.timestamps, ws);
    DropStaleSorted(st.timestamps, ws);
    DropStaleAtMost(st.timestamps, ws, now);
    if |kept| < cfg.limit {
      AppendSorted(kept, now);
    }
  }

  /** Every check keeps the stored state well formed, so the window never holds more than `limit` entries. */
  lemma DecidePreservesWellFormed(cfg: LimiterConfig, st: ClientState, clock: int, now: int)
    requires WellFormed(cfg, st, clock) && clock <= now
    ensures WellFormed(cfg, Decide(cfg, st, now).0, now)
    ensures Decide(cfg, st, now).1.totalRequests <= cfg.limit
    ensures Decide(cfg, st, now).1.remaining >= 0
  {
    var ws := now - cfg.windowMs;
    var kept := DropStale(st.timestamps, ws);
    DropStaleCut(st.timestamps, ws);
    DropStaleSorted(st.timestamps, ws);
    DropStaleAtMost(st.timestamps, ws, now);
    if now >= st.blockedUntil && |kept| < cfg.limit {
      AppendSorted(kept, now);
    }
  }

  /** A saturated window is a violation: rejected, nothing pushed, punishment escalated. */
  lemma SaturatedIsViolation(cfg: LimiterConfig, st: ClientState, now: int)
    requires st.blockedUntil <= now
    requires |DropStale(st.timestamps, now - cfg.windowMs)| >= cfg.limit
    ensures var (st', r) := Decide(cfg, st, now);
      var kept := DropStale(st.timestamps, now - cfg.windowMs);
      && st'.timestamps == kept
      && st'.violationCount == st.violationCount + 1
      && st'.blockedUntil == Max(now + BlockDuration(cfg.punishmentMs, st'.violationCount),
                                 OldestOr(kept, now) + cfg.windowMs)
      && r == RateLimitResult(false, 0, st'.blockedUntil, |kept|)
  {
  }

  /** A violation sets a deadline no earlier than now nor than the previous deadline, and at least the penalty away. */
  lemma ViolationDeadline(cfg: LimiterConfig, st: ClientState, now: int)
    requires st.blockedUntil <= now
    requires |DropStale(st.timestamps, now - cfg.windowMs)| >= cfg.limit
    ensures var st' := Decide(cfg, st, now).0;
      && st'.blockedUntil >= now >= st.blockedUntil
      && st'.blockedUntil - now >= BlockDuration(cfg.punishmentMs, st'.violationCount)
      && (BaseBlockTime(cfg.punishmentMs) > 0 ==>
            st'.blockedUntil - now >= BaseBlockTime(cfg.punishmentMs) * Pow2(st.violationCount))
  {
    var p := BaseBlockTime(cfg.punishmentMs);
    if p > 0 {
      assert p * Pow2(st.violationCount) >= 0;
    }
  }

  /** The block deadline never moves backwards. */
  lemma BlockedUntilMonotone(cfg: LimiterConfig, st: ClientState, now: int)
    ensures Decide(cfg, st, now).0.blockedUntil >= st.blockedUntil
  {
    if now >= st.blockedUntil && |DropStale(st.timestamps, now - cfg.windowMs)| >= cfg.limit {
      ViolationDeadline(cfg, st, now);
    }
  }

  /**
   * The first violation costs the base punishment and each further consecutive one doubles
   * it; an absent, zero or negative punishment costs nothing.
   */
  lemma PenaltyDoubles(punishmentMs: Option<int>, v: nat)
    requires v >= 1
    ensures BlockDuration(punishmentMs, v + 1) == 2 * BlockDuration(punishmentMs, v)
    ensures BaseBlockTime(punishmentMs) > 0 ==> BlockDuration(punishmentMs, 1) == BaseBlockTime(punishmentMs)
    ensures BaseBlockTime(punishmentMs) <= 0 ==> BlockDuration(punishmentMs, v) == 0
    ensures punishmentMs == None ==> BlockDuration(punishmentMs, v) == 0
  {
  }

  /** An admitted check appends `now` and reports what is left, the count and the reset instant. */
  lemma AdmissionAppendsNow(cfg: LimiterConfig, st: ClientState, now: int)
    requires st.blockedUntil <= now
    requires |DropStale(st.timestamps, now - cfg.windowMs)| < cfg.limit
    ensures var (st', r) := Decide(cfg, st, now);
      var ts := DropStale(st.timestamps, now - cfg.windowMs) + [now];
      && st'.timestamps == ts
      && st'.blockedUntil == st.blockedUntil
      && r.allowed
      && r.remaining == cfg.limit - |ts|
      && r.totalRequests == |ts|
      && r.resetAt == ts[0] + cfg.windowMs
      && (|ts| == 1 ==> st'.violationCount == 0)
      && (|ts| > 1 ==> st'.violationCount == st.violationCount)
  {
  }

  /** The first check for a new key is admitted, with `resetAt = now + windowMs`. */
  lemma FirstCheck(cfg: LimiterConfig, now: int)
    requires ValidConfig(cfg) && now >= 0
    ensures Decide(cfg, NewClient, now) ==
      (ClientState([now], 0, 0), RateLimitResult(true, cfg.limit - 1, now + cfg.windowMs, 1))
  {
    assert DropStale([], now - cfg.windowMs) == [];
    assert [] + [now] == [now];
  }

  // ---------------------------------------------------------------------
  // Sequences of checks on one key

  /** Part of a burst: after `done` was admitted into a clean window, the calls in `rest` are admitted one by one. */
  lemma {:induction false} BurstFrom(cfg: LimiterConfig, done: seq<int>, rest: seq<int>)
    requires ValidConfig(cfg)
    requires |done + rest| > 0 && Sorted(done + rest) && (done + rest)[0] >= 0
    requires (done + rest)[|done + rest| - 1] < (done + rest)[0] + cfg.windowMs
    requires |done + rest| <= cfg.limit
    ensures Run(cfg, ClientState(done, 0, 0), rest).0 == ClientState(done + rest, 0, 0)
    ensures |Run(cfg, ClientState(done, 0, 0), rest).1| == |rest|
    ensures forall i :: 0 <= i < |rest| ==>
      Run(cfg, ClientState(done, 0, 0), rest).1[i] ==
        RateLimitResult(true, cfg.limit - (|done| + i + 1), (done + rest)[0] + cfg.windowMs, |done| + i + 1)
    decreases |rest|
  {
    if rest != [] {
      var all := done + rest;
      var now := rest[0];
      var ws := now - cfg.windowMs;
      assert now == all[|done|];
      assert all[0] <= now <= all[|all| - 1];
      if |done| > 0 {
        assert done[0] == all[0];
      }
      DropStaleKeepsFresh(done, ws);
      var done' := done + [now];
      assert done' + rest[1..] == all;
      assert |done'| > 0 && done'[0] == all[0];
      var d := Decide(cfg, ClientState(done, 0, 0), now);
      assert d == (ClientState(done', 0, 0),
                   RateLimitResult(true, cfg.limit - |done'|, all[0] + cfg.windowMs, |done'|));
      BurstFrom(cfg, done', rest[1..]);
      var tail := Run(cfg, ClientState(done', 0, 0), rest[1..]);
      assert Run(cfg, ClientState(done, 0, 0), rest) == (tail.0, [d.1] + tail.1);
    }
  }

  /** Up to `limit` checks of a fresh key inside one window are admitted with remaining limit-1, limit-2, ... and totals 1, 2, ... */
  lemma FreshBurst(cfg: LimiterConfig, times: seq<int>)
    requires ValidConfig(cfg)
    requires |times| > 0 && Sorted(times) && times[0] >= 0
    requires times[|times| - 1] < times[0] + cfg.windowMs
    requires |times| <= cfg.limit
    ensures Run(cfg, NewClient, times).0 == ClientState(times, 0, 0)
    ensures |Run(cfg, NewClient, times).1| == |times|
    ensures forall i :: 0 <= i < |times| ==>
      Run(cfg, NewClient, times).1[i] == RateLimitResult(true, cfg.limit - (i + 1), times[0] + cfg.windowMs, i + 1)
  {
    assert [] + times == times;
    BurstFrom(cfg, [], times);
  }

  /** The (limit+1)-th check inside the window of a fresh key is rejected with nothing remaining. */
  lemma OverLimitRejected(cfg: LimiterConfig, times: seq<int>, now: int)
    requires ValidConfig(cfg)
    requires |times| == cfg.limit && Sorted(times) && times[0] >= 0
    requires times[|times| - 1] <= now < times[0] + cfg.windowMs
    ensures var r := Decide(cfg, Run(cfg, NewClient, times).0, now).1;
      && !r.allowed && r.remaining == 0 && r.totalRequests == cfg.limit
      && r.resetAt == Max(now + BlockDuration(cfg.punishmentMs, 1), times[0] + cfg.windowMs)
  {
    FreshBurst(cfg, times);
    assert times[0] <= times[|times| - 1];
    DropStaleKeepsFresh(times, now - cfg.windowMs);
  }

  /**
   * The scenario with windowMs = 1000, limit = 3, punishmentMs = 500: three checks at one
   * instant leave 2, 1, 0; the fourth is rejected until t + 1000, and a fifth before then
   * is rejected with the same deadline.
   */
  lemma ThreePerSecondScenario(t: int)
    requires t >= 0
    ensures var cfg := LimiterConfig(1000, 3, Some(500));
      var (st, rs) := Run(cfg, NewClient, [t, t, t]);
      && rs == [RateLimitResult(true, 2, t + 1000, 1), RateLimitResult(true, 1, t + 1000, 2),
                RateLimitResult(true, 0, t + 1000, 3)]
      && Decide(cfg, st, t).1 == RateLimitResult(false, 0, t + 1000, 3)
      && Decide(cfg, Decide(cfg, st, t).0, t + 1).1 == RateLimitResult(false, 0, t + 1000, 3)
  {
    var cfg := LimiterConfig(1000, 3, Some(500));
    var times := [t, t, t];
    FreshBurst(cfg, times);
    OverLimitRejected(cfg, times, t);
    var rs := Run(cfg, NewClient, times).1;
    assert rs[0] == RateLimitResult(true, 2, t + 1000, 1);
    assert rs[1] == RateLimitResult(true, 1, t + 1000, 2);
    assert rs[2] == RateLimitResult(true, 0, t + 1000, 3);
  }

  // ---------------------------------------------------------------------
  // Many keys

  /** A check of `key` stores state for `key` and leaves every other key's entry as it was. */
  lemma KeysIndependent<K>(cfg: LimiterConfig, m: map<K, ClientState>, key: K, now: int)
    ensures var m' := CheckKey(cfg, m, key, now).0;
      && m'.Keys == m.Keys + {key}
      && (forall k :: k in m && k != key ==> m'[k] == m[k])
  {
  }

  /** Checking one key does not change the next decision for another key. */
  lemma OtherKeyDecisionUnaffected<K>(cfg: LimiterConfig, m: map<K, ClientState>, a: K, b: K, t1: int, t2: int)
    requires a != b
    ensures CheckKey(cfg, CheckKey(cfg, m, a, t1).0, b, t2).1 == CheckKey(cfg, m, b, t2).1
  {
    assert Lookup(CheckKey(cfg, m, a, t1).0, b) == Lookup(m, b);
  }

  /** The sweep deletes exactly the evictable keys and keeps every other entry unchanged. */
  lemma SweepExact<K>(cfg: LimiterConfig, m: map<K, ClientState>, now: int)
    ensures forall k :: k in m ==> (k in Sweep(cfg, m, now) <==> !Evictable(cfg, m[k], now))
    ensures forall k :: k in Sweep(cfg, m, now) ==> k in m && Sweep(cfg, m, now)[k] == m[k]
  {
  }

  /** The sweep never removes a key that is still blocked or holds a timestamp inside the window. */
  lemma SweepKeepsActive<K>(cfg: LimiterConfig, m: map<K, ClientState>, now: int, k: K)
    requires k in m && Sorted(m[k].timestamps)
    requires m[k].blockedUntil >= now ||
             exists i :: 0 <= i < |m[k].timestamps| && m[k].timestamps[i] >= now - cfg.windowMs
    ensures k in Sweep(cfg, m, now)
  {
  }

  /**
   * Evicting an idle key cannot be observed: the next check (at any later instant) gives the
   * same decision and the same timestamps as it would have on the evicted state.
   */
  lemma EvictionUnobservable(cfg: LimiterConfig, st: ClientState, now: int, later: int)
    requires ValidConfig(cfg) && Sorted(st.timestamps)
    requires Evictable(cfg, st, now) && now <= later && later >= 0
    ensures Decide(cfg, st, later).1 == Decide(cfg, NewClient, later).1
    ensures Decide(cfg, st, later).0.timestamps == Decide(cfg, NewClient, later).0.timestamps
    ensures Decide(cfg, st, later).0.violationCount == 0
  {
    var ws := later - cfg.windowMs;
    var ts := st.timestamps;
    var k := |ts| - |DropStale(ts, ws)|;
    if |ts| > 0 {
      assert forall i :: 0 <= i < |ts| ==> ts[i] <= ts[|ts| - 1];
    }
    DropStaleIsLongestPrefix(ts, ws, |ts|);
  }

  // ---------------------------------------------------------------------
  // The limiter object

  class SmartRateLimiter<K(==)> {
    const config: LimiterConfig
    var state: map<K, ClientState>
    /** The latest instant seen by `Check` or `Cleanup`. */
    ghost var clock: int

    ghost predicate Valid()
      reads this
    {
      ValidConfig(config) && forall k :: k in state ==> WellFormed(config, state[k], clock)
    }

    constructor (config: LimiterConfig)
      requires ValidConfig(config)
      ensures Valid() && this.config == config && state == map[] && clock == 0
    {
      this.config := config;
      state := map[];
      clock := 0;
    }

    /** `getClientState`: the key's state, created on first sight. */
    method GetClientState(key: K) returns (st: ClientState)
      requires Valid()
      modifies this`state
      ensures Valid()
      ensures state == old(state)[key := Lookup(old(state), key)]
      ensures st == Lookup(old(state), key)
    {
      if key !in state {
        state := state[key := NewClient];
      }
      st := state[key];
    }

    /** `applyPunishment` on the stored (already trimmed) state of `key`. */
    method ApplyPunishment(key: K, now: int) returns (r: RateLimitResult)
      requires Valid() && key in state
      modifies this`state
      ensures Valid()
      ensures state == old(state)[key := Punish(config, old(state)[key], now)]
      ensures r == RateLimitResult(false, 0, state[key].blockedUntil, |state[key].timestamps|)
    {
      var st := state[key];
      var v := st.violationCount + 1;
      var baseBlockTime := BaseBlockTime(config.punishmentMs);
      var blockDuration := if baseBlockTime > 0 then baseBlockTime * Pow2(v - 1) else 0;
      var nextFreeSlot := (if |st.timestamps| > 0 then st.timestamps[0] else now) + config.windowMs;
      var blockedUntil := Max(now + blockDuration, nextFreeSlot);
      state := state[key := st.(violationCount := v, blockedUntil := blockedUntil)];
      r := RateLimitResult(false, 0, blockedUntil, |st.timestamps|);
    }

    /** Moves the ghost clock forward; stored states stay well formed. */
    ghost method AdvanceClock(now: int)
      requires Valid() && clock <= now
      modifies this`clock
      ensures Valid() && clock == now
    {
      forall k | k in state ensures WellFormed(config, state[k], now) {
        assert WellFormed(config, state[k], clock);
      }
      clock := now;
    }

    /** The `shift()` loop of `check`: drops the key's stale timestamps from the front, in place. */
    method TrimWindow(key: K, windowStart: int) returns (ts: seq<int>)
      requires Valid() && key in state
      modifies this`state
      ensures Valid()
      ensures ts == DropStale(old(state)[key].timestamps, windowStart)
      ensures state == old(state)[key := old(state)[key].(timestamps := ts)]
    {
      var st := state[key];
      ts := st.timestamps;
      while |ts| > 0 && ts[0] <= windowStart
        invariant DropStale(ts, windowStart) == DropStale(st.timestamps, windowStart)
        decreases |ts|
      {
        ts := ts[1..];
      }
      assert ts == DropStale(st.timestamps, windowStart);
      DropStaleCut(st.timestamps, windowStart);
      DropStaleSorted(st.timestamps, windowStart);
      DropStaleAtMost(st.timestamps, windowStart, clock);
      state := state[key := st.(timestamps := ts)];
    }

    /** `check(key)` at instant `now`. */
    method Check(key: K, now: int) returns (r: RateLimitResult)
      requires Valid() && clock <= now
      modifies this`state, this`clock
      ensures Valid() && clock == now
      ensures (state, r) == CheckKey(config, old(state), key, now)
      ensures r.totalRequests <= config.limit && r.remaining >= 0
    {
      ghost var m := state;
      ghost var was := Lookup(m, key);
      DecidePreservesWellFormed(config, was, clock, now);
      AdvanceClock(now);
      var st := GetClientState(key);

      if now < st.blockedUntil {
        r := RateLimitResult(false, 0, st.blockedUntil, |st.timestamps|);
        return;
      }

      var ts := TrimWindow(key, now - config.windowMs);

      if |ts| >= config.limit {
        r := ApplyPunishment(key, now);
        assert state == m[key := Punish(config, was.(timestamps := ts), now)];
        return;
      }

      ts := ts + [now];
      var violationCount := st.violationCount;
      if violationCount > 0 && |ts| == 1 {
        violationCount := 0;
      }
      state := state[key := ClientState(ts, st.blockedUntil, violationCount)];
      var oldestRequest := if |ts| > 0 then ts[0] else now;
      r := RateLimitResult(true, config.limit - |ts|, oldestRequest + config.windowMs, |ts|);
      assert state == m[key := ClientState(ts, was.blockedUntil, violationCount)];
    }

    /** `cleanup()` at instant `now`: evicts every idle key. */
    method Cleanup(now: int)
      requires Valid() && clock <= now
      modifies this`state, this`clock
      ensures Valid() && clock == now
      ensures state == Sweep(config, old(state), now)
    {
      AdvanceClock(now);
      ghost var m := state;
      var pending := state.Keys;
      while pending != {}
        invariant pending <= m.Keys
        invariant clock == now
        invariant forall k :: k in state ==> k in m && state[k] == m[k]
        invariant state == map k | k in m && (k in pending || !Evictable(config, m[k], now)) :: m[k]
        decreases pending
      {
        var key :| key in pending;
        var st := state[key];
        if st.blockedUntil < now && (|st.timestamps| == 0 || st.timestamps[|st.timestamps| - 1] < now - config.windowMs) {
          state := state - {key};
        }
        pending := pending - {key};
      }
    }
  }
}
