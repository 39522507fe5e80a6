/** The per-peer token-bucket limiter. Instants are reals (seconds), as are tokens. */
module Limiter {
  import opened Wrappers
  import opened Net

  datatype Bucket = Bucket(tokens: real, lastRefill: real, lastSeen: real)

  datatype Params = Params(burst: real, rate: real, idle: nat)

  type Buckets = map<IpAddr, Bucket>

  /** `duration_since` saturates at zero; `as_secs` drops the fraction. */
  function Since(now: real, earlier: real): real {
    if now < earlier then 0.0 else now - earlier
  }

  predicate Kept(p: Params, b: Bucket, now: real) {
    Since(now, b.lastSeen).Floor <= p.idle
  }

  function Retained(p: Params, m: Buckets, now: real): Buckets {
    map ip | ip in m && Kept(p, m[ip], now) :: m[ip]
  }

  function Lookup(m: Buckets, ip: IpAddr): Option<Bucket> {
    if ip in m then Some(m[ip]) else None
  }

  /** The refill of an existing bucket, or a full bucket for a new peer. */
  function Refilled(p: Params, b: Option<Bucket>, now: real): Bucket {
    match b
    case None => Bucket(p.burst, now, now)
    case Some(b) =>
      var dt := Since(now, b.lastRefill);
      if dt > 0.0 then
        var sum := b.tokens + dt * p.rate;
        Bucket(if sum > p.burst then p.burst else sum, now, now)
      else Bucket(b.tokens, b.lastRefill, now)
  }

  predicate Grants(b: Bucket) {
    b.tokens >= 1.0
  }

  function Charged(b: Bucket): Bucket {
    if Grants(b) then b.(tokens := b.tokens - 1.0) else b
  }

  /** One call of a limiter, with or without the idle eviction. */
  datatype Mode = Evicting | Keeping

  function Swept(p: Params, mode: Mode, m: Buckets, now: real): Buckets {
    if mode.Evicting? then Retained(p, m, now) else m
  }

  datatype Call = Call(ip: IpAddr, now: real)

  function Decision(p: Params, mode: Mode, m: Buckets, c: Call): bool {
    Grants(Refilled(p, Lookup(Swept(p, mode, m, c.now), c.ip), c.now))
  }

  function After(p: Params, mode: Mode, m: Buckets, c: Call): Buckets {
    var swept := Swept(p, mode, m, c.now);
    swept[c.ip := Charged(Refilled(p, Lookup(swept, c.ip), c.now))]
  }

  class AsyncRateLimiter {
    const params: Params
    var buckets: Buckets

    constructor (burst: real, rate: real, idle: nat)
      ensures params == Params(burst, rate, idle) && buckets == map[]
    {
      params := Params(burst, rate, idle);
      buckets := map[];
    }

    method Allow(ip: IpAddr, now: real) returns (ok: bool)
      modifies this
      ensures ok == Decision(params, Evicting, old(buckets), Call(ip, now))
      ensures buckets == After(params, Evicting, old(buckets), Call(ip, now))
    {
      buckets := Retained(params, buckets, now);
      ghost var swept := buckets;
      if ip !in buckets {
        buckets := buckets[ip := Bucket(params.burst, now, now)];
      }
      var entry := buckets[ip];
      var dt := Since(now, entry.lastRefill);
      if dt > 0.0 {
        entry := entry.(tokens := entry.tokens + dt * params.rate);
        if entry.tokens > params.burst {
          entry := entry.(tokens := params.burst);
        }
        entry := entry.(lastRefill := now);
      }
      entry := entry.(lastSeen := now);
      ok := entry.tokens >= 1.0;
      if ok {
        entry := entry.(tokens := entry.tokens - 1.0);
      }
      assert entry == Charged(Refilled(params, Lookup(swept, ip), now));
      buckets := buckets[ip := entry];
      assert buckets == swept[ip := entry];
    }
  }

  // ---- Runs ----

  ghost predicate Timely(calls: seq<Call>) {
    forall i, j :: 0 <= i < j < |calls| ==> calls[i].now <= calls[j].now
  }

  /** The buckets after a sequence of calls on an empty limiter. */
  function State(p: Params, mode: Mode, calls: seq<Call>): Buckets {
    if calls == [] then map[]
    else After(p, mode, State(p, mode, calls[..|calls| - 1]), calls[|calls| - 1])
  }

  /** The limiter's answer to call `k` of a run. */
  predicate Allowed(p: Params, mode: Mode, calls: seq<Call>, k: nat)
    requires k < |calls|
  {
    Decision(p, mode, State(p, mode, calls[..k]), calls[k])
  }

  /** The limiter's answers over a run. */
  function Answers(p: Params, mode: Mode, calls: seq<Call>): (ds: seq<bool>)
    ensures |ds| == |calls| && forall k :: 0 <= k < |ds| ==> ds[k] == Allowed(p, mode, calls, k)
  {
    seq(|calls|, k requires 0 <= k < |calls| => Allowed(p, mode, calls, k))
  }

  /** How many calls of `ip` among the indices from `lo` below `hi` were allowed. */
  function Count(calls: seq<Call>, ds: seq<bool>, ip: IpAddr, lo: nat, hi: nat): nat
    requires hi <= |calls| == |ds|
    decreases hi
  {
    if hi <= lo then 0
    else Count(calls, ds, ip, lo, hi - 1) + if calls[hi - 1].ip == ip && ds[hi - 1] then 1 else 0
  }

  lemma StateStep(p: Params, mode: Mode, calls: seq<Call>, k: nat)
    requires k < |calls|
    ensures State(p, mode, calls[..k + 1]) == After(p, mode, State(p, mode, calls[..k]), calls[k])
  {
    assert calls[..k + 1][..k] == calls[..k];
  }

  ghost predicate Plausible(p: Params) {
    p.burst >= 0.0 && p.rate >= 0.0
  }

  /** A bucket is forgotten only when it would be full again. */
  ghost predicate Patient(p: Params) {
    p.burst <= p.rate * (p.idle + 1) as real
  }

  /** What a bucket looks like between calls. */
  ghost predicate Settled(p: Params, b: Bucket, now: real) {
    0.0 <= b.tokens <= p.burst && b.lastRefill == b.lastSeen <= now
  }

  ghost predicate AllSettled(p: Params, m: Buckets, now: real) {
    forall ip :: ip in m ==> Settled(p, m[ip], now)
  }

  lemma Scales(x: real, y: real)
    requires x >= 0.0 && y >= 0.0
    ensures x * y >= 0.0
  {
  }

  lemma ScalesUp(r: real, x: real, y: real)
    requires r >= 0.0 && x <= y
    ensures r * x <= r * y
  {
    Scales(r, y - x);
  }

  lemma RefilledSettled(p: Params, b: Option<Bucket>, now: real)
    requires Plausible(p) && (b.Some? ==> Settled(p, b.value, now))
    ensures Settled(p, Refilled(p, b, now), now) && Refilled(p, b, now).lastSeen == now
    ensures Settled(p, Charged(Refilled(p, b, now)), now)
  {
    if b.Some? {
      Scales(Since(now, b.value.lastRefill), p.rate);
    }
  }

  lemma AfterSettled(p: Params, mode: Mode, m: Buckets, now: real, c: Call)
    requires Plausible(p) && AllSettled(p, m, now) && now <= c.now
    ensures AllSettled(p, After(p, mode, m, c), c.now)
  {
    RefilledSettled(p, Lookup(Swept(p, mode, m, c.now), c.ip), c.now);
  }

  lemma {:induction false} StateSettled(p: Params, mode: Mode, calls: seq<Call>, k: nat, now: real)
    requires Plausible(p) && Timely(calls) && k <= |calls|
    requires k > 0 ==> calls[k - 1].now <= now
    ensures AllSettled(p, State(p, mode, calls[..k]), now)
  {
    if k == 0 {
    } else {
      var before := if k > 1 then calls[k - 2].now else calls[0].now;
      StateSettled(p, mode, calls, k - 1, before);
      StateStep(p, mode, calls, k - 1);
      AfterSettled(p, mode, State(p, mode, calls[..k - 1]), before, calls[k - 1]);
    }
  }

  // ---- Eviction is unobservable ----

  /** The tokens `ip` would find at `now`. */
  ghost function Level(p: Params, m: Buckets, ip: IpAddr, now: real): real {
    Refilled(p, Lookup(m, ip), now).tokens
  }

  /** A bucket whose refill has reached the brim by `now`. */
  ghost predicate Full(p: Params, b: Bucket, now: real) {
    b.lastSeen < now && b.tokens + (now - b.lastSeen) * p.rate >= p.burst
  }

  lemma FullStaysFull(p: Params, b: Bucket, now: real, later: real)
    requires Plausible(p) && Full(p, b, now) && now <= later
    ensures Full(p, b, later)
  {
    Scales(later - now, p.rate);
    assert (later - b.lastSeen) * p.rate == (now - b.lastSeen) * p.rate + (later - now) * p.rate;
  }

  /** A full bucket refills to exactly what a new peer is given. */
  lemma FullActsAsNew(p: Params, b: Bucket, now: real)
    requires Settled(p, b, now) && Full(p, b, now)
    ensures Refilled(p, Some(b), now) == Refilled(p, None, now)
  {
  }

  /** An evicted bucket had been idle for at least `idle + 1` whole seconds, so it was full. */
  lemma EvictedWasFull(p: Params, b: Bucket, now: real)
    requires Plausible(p) && Patient(p) && Settled(p, b, now) && !Kept(p, b, now)
    ensures Full(p, b, now)
  {
    var idleFor := now - b.lastSeen;
    var whole := (p.idle + 1) as real;
    assert idleFor >= whole;
    Scales(idleFor - whole, p.rate);
    assert idleFor * p.rate == whole * p.rate + (idleFor - whole) * p.rate;
  }

  /** The evicting limiter's buckets are those of the keeping one, less some that are full. */
  ghost predicate Shadows(p: Params, evicting: Buckets, keeping: Buckets, now: real) {
    forall ip :: ShadowsAt(p, evicting, keeping, ip, now)
  }

  ghost predicate ShadowsAt(p: Params, evicting: Buckets, keeping: Buckets, ip: IpAddr, now: real) {
    || Lookup(evicting, ip) == Lookup(keeping, ip)
    || (ip !in evicting && ip in keeping && Full(p, keeping[ip], now))
  }

  lemma SweepKeepsShadow(p: Params, evicting: Buckets, keeping: Buckets, now: real, later: real)
    requires Plausible(p) && Patient(p) && now <= later
    requires Shadows(p, evicting, keeping, now) && AllSettled(p, keeping, now)
    ensures Shadows(p, Swept(p, Evicting, evicting, later), keeping, later)
  {
    forall ip
      ensures ShadowsAt(p, Swept(p, Evicting, evicting, later), keeping, ip, later)
    {
      assert ShadowsAt(p, evicting, keeping, ip, now);
      if ip in keeping {
        if ip !in evicting {
          FullStaysFull(p, keeping[ip], now, later);
        } else if !Kept(p, evicting[ip], later) {
          EvictedWasFull(p, keeping[ip], later);
        }
      }
    }
  }

  lemma CallKeepsShadow(p: Params, evicting: Buckets, keeping: Buckets, now: real, c: Call)
    requires Plausible(p) && Patient(p) && now <= c.now
    requires Shadows(p, evicting, keeping, now) && AllSettled(p, keeping, now)
    ensures Decision(p, Evicting, evicting, c) == Decision(p, Keeping, keeping, c)
    ensures Shadows(p, After(p, Evicting, evicting, c), After(p, Keeping, keeping, c), c.now)
  {
    SweepKeepsShadow(p, evicting, keeping, now, c.now);
    var swept := Swept(p, Evicting, evicting, c.now);
    assert ShadowsAt(p, swept, keeping, c.ip, c.now);
    if Lookup(swept, c.ip) != Lookup(keeping, c.ip) {
      FullActsAsNew(p, keeping[c.ip], c.now);
    }
    assert Refilled(p, Lookup(swept, c.ip), c.now) == Refilled(p, Lookup(keeping, c.ip), c.now);
    forall ip
      ensures ShadowsAt(p, After(p, Evicting, evicting, c), After(p, Keeping, keeping, c), ip, c.now)
    {
      assert ShadowsAt(p, swept, keeping, ip, c.now);
    }
  }

  lemma {:induction false} StatesShadow(p: Params, calls: seq<Call>, k: nat, now: real)
    requires Plausible(p) && Patient(p) && Timely(calls) && k <= |calls|
    requires k > 0 ==> calls[k - 1].now <= now
    ensures Shadows(p, State(p, Evicting, calls[..k]), State(p, Keeping, calls[..k]), now)
  {
    if k == 0 {
    } else {
      var before := if k > 1 then calls[k - 2].now else calls[0].now;
      StatesShadow(p, calls, k - 1, before);
      StateSettled(p, Keeping, calls, k - 1, before);
      StateStep(p, Evicting, calls, k - 1);
      StateStep(p, Keeping, calls, k - 1);
      var e, f := State(p, Evicting, calls[..k]), State(p, Keeping, calls[..k]);
      CallKeepsShadow(p, State(p, Evicting, calls[..k - 1]), State(p, Keeping, calls[..k - 1]), before, calls[k - 1]);
      forall ip
        ensures ShadowsAt(p, e, f, ip, now)
      {
        assert ShadowsAt(p, e, f, ip, calls[k - 1].now);
        if Lookup(e, ip) != Lookup(f, ip) {
          FullStaysFull(p, f[ip], calls[k - 1].now, now);
        }
      }
    }
  }

  /** Forgetting idle peers changes no answer, when a forgotten bucket would have been full again. */
  lemma EvictionUnobservable(p: Params, calls: seq<Call>)
    requires Plausible(p) && Patient(p) && Timely(calls)
    ensures Answers(p, Evicting, calls) == Answers(p, Keeping, calls)
  {
    forall k | 0 <= k < |calls|
      ensures Allowed(p, Evicting, calls, k) == Allowed(p, Keeping, calls, k)
    {
      var before := if k > 0 then calls[k - 1].now else calls[0].now;
      StatesShadow(p, calls, k, before);
      StateSettled(p, Keeping, calls, k, before);
      CallKeepsShadow(p, State(p, Evicting, calls[..k]), State(p, Keeping, calls[..k]), before, calls[k]);
    }
  }

  // ---- The exact budget ----

  /** `level` is the least of `cap` and the values of `f` on `js`. */
  ghost predicate Least(level: real, cap: real, js: set<nat>, f: nat -> real) {
    && level <= cap && (forall j :: j in js ==> level <= f(j))
    && (level == cap || exists j :: j in js && level == f(j))
  }

  /** Spending `spent` and then gaining `gain` up to the cap, when each value moves alike and one joins. */
  lemma LeastStep(
      level: real, next: real, cap: real, js: set<nat>, f: nat -> real, g: nat -> real,
      last: nat, gain: real, spent: real)
    requires Least(level, cap, js, f)
    requires next == if level - spent + gain > cap then cap else level - spent + gain
    requires forall j :: j in js ==> g(j) == f(j) + gain - spent
    requires g(last) == cap + gain - spent
    ensures Least(next, cap, js + {last}, g)
  {
    if next != cap {
      if level == cap {
        assert next == g(last);
      } else {
        var j :| j in js && level == f(j);
        assert next == g(j);
      }
    }
  }

  lemma LeastExceeds(level: real, cap: real, js: set<nat>, f: nat -> real, x: real)
    requires Least(level, cap, js, f)
    ensures level >= x <==> cap >= x && forall j :: j in js ==> f(j) >= x
  {
  }

  ghost function Spent(answer: bool): real {
    if answer then 1.0 else 0.0
  }

  ghost function Capped(cap: real, x: real): real {
    if x > cap then cap else x
  }

  /** What the calls since `lo` leave at `now` of the burst and of the credit earned since; `credit(t)` is the
      credit earned by time `t`. */
  ghost function Budget(
      burst: real, credit: real -> real, calls: seq<Call>, ds: seq<bool>, ip: IpAddr,
      lo: nat, hi: nat, now: real): real
    requires hi <= |calls| == |ds|
  {
    if lo < |calls| then burst + credit(now) - credit(calls[lo].now) - Count(calls, ds, ip, lo, hi) as real
    else burst
  }

  ghost function OwnCalls(calls: seq<Call>, ip: IpAddr, hi: nat): set<nat>
    requires hi <= |calls|
  {
    set j: nat | j < hi && calls[j].ip == ip
  }

  /** `level(k, now)` is a token count at `now` after `k` calls: full at first, spent by the peer's allowed calls,
      refilled up to the burst by its credit, untouched by other calls. */
  ghost predicate Follows(
      level: (nat, real) -> real, burst: real, credit: real -> real, calls: seq<Call>, ds: seq<bool>, ip: IpAddr)
    requires |calls| == |ds|
  {
    && (forall now :: level(0, now) == burst)
    && (forall k: nat, now :: k < |calls| && calls[k].now <= now ==>
          level(k + 1, now) == LevelAfter(level, burst, credit, calls, ds, ip, k, now))
  }

  ghost function LevelAfter(
      level: (nat, real) -> real, burst: real, credit: real -> real, calls: seq<Call>, ds: seq<bool>, ip: IpAddr,
      k: nat, now: real): real
    requires k < |calls| == |ds|
  {
    if calls[k].ip != ip then level(k, now)
    else Capped(burst, level(k, calls[k].now) - Spent(ds[k]) + credit(now) - credit(calls[k].now))
  }

  /** The budget since an earlier call, before and after one more call of the same peer. */
  lemma BudgetStep(
      burst: real, credit: real -> real, calls: seq<Call>, ds: seq<bool>, ip: IpAddr, j: nat, k: nat, now: real)
    requires j <= k < |calls| == |ds| && calls[k].ip == ip
    ensures Budget(burst, credit, calls, ds, ip, j, k + 1, now)
         == Budget(burst, credit, calls, ds, ip, j, k, calls[k].now) + credit(now) - credit(calls[k].now) - Spent(ds[k])
    ensures Budget(burst, credit, calls, ds, ip, k, k, calls[k].now) == burst
  {
  }

  /** A call of another peer leaves the budget alone. */
  lemma BudgetSkips(
      burst: real, credit: real -> real, calls: seq<Call>, ds: seq<bool>, ip: IpAddr, j: nat, k: nat, now: real)
    requires j < k < |calls| == |ds| && calls[k].ip != ip
    ensures Budget(burst, credit, calls, ds, ip, j, k + 1, now) == Budget(burst, credit, calls, ds, ip, j, k, now)
  {
  }

  lemma LeastOfNone(cap: real, f: nat -> real)
    ensures Least(cap, cap, {}, f)
  {
  }

  lemma LeastSame(level: real, cap: real, js: set<nat>, f: nat -> real, g: nat -> real)
    requires Least(level, cap, js, f) && forall j :: j in js ==> f(j) == g(j)
    ensures Least(level, cap, js, g)
  {
    if level != cap {
      var j :| j in js && level == f(j);
      assert level == g(j);
    }
  }

  /** Such a token count is the least of the peer's budgets since each of its calls, capped at the burst. */
  lemma {:induction false} LevelIsLeastBudget(
      level: (nat, real) -> real, burst: real, credit: real -> real, calls: seq<Call>, ds: seq<bool>, ip: IpAddr,
      hi: nat, now: real)
    requires hi <= |calls| == |ds| && Timely(calls) && Follows(level, burst, credit, calls, ds, ip)
    requires hi > 0 ==> calls[hi - 1].now <= now
    ensures Least(level(hi, now), burst, OwnCalls(calls, ip, hi),
                  (j: nat) => Budget(burst, credit, calls, ds, ip, j, hi, now))
  {
    hide Budget, Least, Count;
    if hi == 0 {
      assert OwnCalls(calls, ip, 0) == {};
      LeastOfNone(burst, (j: nat) => Budget(burst, credit, calls, ds, ip, j, hi, now));
    } else {
      var k := hi - 1;
      var at := if calls[k].ip == ip then calls[k].now else now;
      var f := (j: nat) => Budget(burst, credit, calls, ds, ip, j, k, at);
      var g := (j: nat) => Budget(burst, credit, calls, ds, ip, j, hi, now);
      var js := OwnCalls(calls, ip, k);
      LevelIsLeastBudget(level, burst, credit, calls, ds, ip, k, at);
      assert level(k + 1, now) == LevelAfter(level, burst, credit, calls, ds, ip, k, now);
      if calls[k].ip == ip {
        var gain := credit(now) - credit(at);
        forall j | j in js
          ensures g(j) == f(j) + gain - Spent(ds[k])
        {
          BudgetStep(burst, credit, calls, ds, ip, j, k, now);
        }
        BudgetStep(burst, credit, calls, ds, ip, k, k, now);
        LeastStep(level(k, at), level(hi, now), burst, js, f, g, k, gain, Spent(ds[k]));
        assert OwnCalls(calls, ip, hi) == js + {k};
      } else {
        forall j | j in js
          ensures f(j) == g(j)
        {
          BudgetSkips(burst, credit, calls, ds, ip, j, k, now);
        }
        assert OwnCalls(calls, ip, hi) == js;
        LeastSame(level(hi, now), burst, js, f, g);
      }
    }
  }

  /** Counting from each of the peer's calls up to call `k`, the budget has a token left. */
  ghost predicate WithinBudget(burst: real, credit: real -> real, calls: seq<Call>, ds: seq<bool>, k: nat)
    requires k < |calls| == |ds|
  {
    forall j :: 0 <= j <= k && calls[j].ip == calls[k].ip ==>
      Budget(burst, credit, calls, ds, calls[k].ip, j, k, calls[k].now) >= 1.0
  }

  /** A call is allowed exactly when it is within the budget. */
  ghost predicate Conforms(burst: real, credit: real -> real, calls: seq<Call>, ds: seq<bool>)
    requires |calls| == |ds|
  {
    forall k :: 0 <= k < |calls| ==> (ds[k] <==> WithinBudget(burst, credit, calls, ds, k))
  }

  lemma LevelSuffices(
      level: (nat, real) -> real, burst: real, credit: real -> real, calls: seq<Call>, ds: seq<bool>, k: nat)
    requires k < |calls| == |ds| && Timely(calls) && Follows(level, burst, credit, calls, ds, calls[k].ip)
    ensures level(k, calls[k].now) >= 1.0 <==> WithinBudget(burst, credit, calls, ds, k)
  {
    var ip, now := calls[k].ip, calls[k].now;
    var js := OwnCalls(calls, ip, k);
    var f := (j: nat) => Budget(burst, credit, calls, ds, ip, j, k, now);
    LevelIsLeastBudget(level, burst, credit, calls, ds, ip, k, now);
    LeastExceeds(level(k, now), burst, js, f, 1.0);
    assert Budget(burst, credit, calls, ds, ip, k, k, now) == burst;
    if WithinBudget(burst, credit, calls, ds, k) {
      forall j | j in js
        ensures f(j) >= 1.0
      {
        assert Budget(burst, credit, calls, ds, ip, j, k, now) >= 1.0;
      }
    } else {
      var j :| 0 <= j <= k && calls[j].ip == ip && Budget(burst, credit, calls, ds, ip, j, k, now) < 1.0;
      assert j == k || (j in js && f(j) < 1.0);
    }
  }

  /** The credit of a limiter grows by `rate` a second. */
  ghost function Credit(p: Params): real -> real {
    (t: real) => t * p.rate
  }

  /** The bucket a call leaves behind. */
  lemma BucketAfter(p: Params, m: Buckets, before: real, c: Call) returns (b: Bucket)
    requires Plausible(p) && AllSettled(p, m, before) && before <= c.now
    ensures Lookup(After(p, Keeping, m, c), c.ip) == Some(b)
    ensures b.lastRefill == c.now && b.tokens <= p.burst
    ensures b.tokens == Level(p, m, c.ip, c.now) - Spent(Decision(p, Keeping, m, c))
  {
    var refilled := Refilled(p, Lookup(m, c.ip), c.now);
    RefilledSettled(p, Lookup(m, c.ip), c.now);
    hide Refilled;
    b := Charged(refilled);
  }

  lemma LevelAfterOwnCall(p: Params, m: Buckets, before: real, c: Call, now: real)
    requires Plausible(p) && AllSettled(p, m, before) && before <= c.now <= now
    ensures Level(p, After(p, Keeping, m, c), c.ip, now)
         == Capped(p.burst, Level(p, m, c.ip, c.now) - Spent(Decision(p, Keeping, m, c)) + (now - c.now) * p.rate)
  {
    var b := BucketAfter(p, m, before, c);
    assert Level(p, After(p, Keeping, m, c), c.ip, now) == Refilled(p, Some(b), now).tokens by {
      hide Refilled, After;
    }
    hide Refilled, After, Level, Decision;
    RefillOf(p, b, now);
    var gain := (now - c.now) * p.rate;
    assert (now - b.lastRefill) * p.rate == gain;
  }

  lemma RefillOf(p: Params, b: Bucket, now: real)
    requires b.tokens <= p.burst && b.lastRefill <= now
    ensures Refilled(p, Some(b), now).tokens == Capped(p.burst, b.tokens + (now - b.lastRefill) * p.rate)
  {
    if b.lastRefill == now {
      assert (now - b.lastRefill) * p.rate == 0.0;
    }
  }

  lemma LevelAfterOtherCall(p: Params, m: Buckets, c: Call, ip: IpAddr, now: real)
    requires ip != c.ip
    ensures Level(p, After(p, Keeping, m, c), ip, now) == Level(p, m, ip, now)
  {
  }

  ghost function LevelOf(p: Params, calls: seq<Call>, ip: IpAddr): (nat, real) -> real {
    (k: nat, now: real) => if k <= |calls| then Level(p, State(p, Keeping, calls[..k]), ip, now) else 0.0
  }

  lemma Distributes(a: real, b: real, r: real)
    ensures (a - b) * r == a * r - b * r
  {
  }

  lemma LevelOfIs(p: Params, calls: seq<Call>, ip: IpAddr, k: nat, now: real)
    requires k <= |calls|
    ensures LevelOf(p, calls, ip)(k, now) == Level(p, State(p, Keeping, calls[..k]), ip, now)
  {
  }

  lemma LevelInitially(p: Params, calls: seq<Call>, ip: IpAddr, now: real)
    ensures LevelOf(p, calls, ip)(0, now) == p.burst
  {
    assert calls[..0] == [];
  }

  lemma LevelAfterCall(p: Params, calls: seq<Call>, k: nat, now: real)
    requires Plausible(p) && Timely(calls) && k < |calls| && calls[k].now <= now
    ensures Level(p, State(p, Keeping, calls[..k + 1]), calls[k].ip, now)
         == Capped(p.burst, Level(p, State(p, Keeping, calls[..k]), calls[k].ip, calls[k].now)
                            - Spent(Allowed(p, Keeping, calls, k)) + (now - calls[k].now) * p.rate)
  {
    hide Refilled, Settled, After, Capped;
    StateStep(p, Keeping, calls, k);
    StateSettled(p, Keeping, calls, k, calls[k].now);
    LevelAfterOwnCall(p, State(p, Keeping, calls[..k]), calls[k].now, calls[k], now);
  }

  lemma LevelStep(
      p: Params, calls: seq<Call>, ds: seq<bool>, credit: real -> real, ip: IpAddr, k: nat, now: real)
    requires Plausible(p) && Timely(calls) && k < |calls| == |ds| && calls[k].now <= now
    requires ds[k] == Allowed(p, Keeping, calls, k)
    requires credit(now) - credit(calls[k].now) == (now - calls[k].now) * p.rate
    ensures LevelOf(p, calls, ip)(k + 1, now)
         == LevelAfter(LevelOf(p, calls, ip), p.burst, credit, calls, ds, ip, k, now)
  {
    LevelOfIs(p, calls, ip, k + 1, now);
    if calls[k].ip == ip {
      LevelOfIs(p, calls, ip, k, calls[k].now);
      LevelAfterCall(p, calls, k, now);
    } else {
      LevelOfIs(p, calls, ip, k, now);
      StateStep(p, Keeping, calls, k);
      LevelAfterOtherCall(p, State(p, Keeping, calls[..k]), calls[k], ip, now);
    }
  }

  /** The limiter that never forgets is exactly the sliding budget. */
  lemma KeepingConforms(p: Params, calls: seq<Call>)
    requires Plausible(p) && Timely(calls)
    ensures Conforms(p.burst, Credit(p), calls, Answers(p, Keeping, calls))
  {
    hide Refilled, Budget, WithinBudget, LevelAfter, State, After;
    var ds := Answers(p, Keeping, calls);
    forall k | 0 <= k < |calls|
      ensures ds[k] <==> WithinBudget(p.burst, Credit(p), calls, ds, k)
    {
      var ip := calls[k].ip;
      forall i: nat, now | i < |calls| && calls[i].now <= now
        ensures LevelOf(p, calls, ip)(i + 1, now)
             == LevelAfter(LevelOf(p, calls, ip), p.burst, Credit(p), calls, ds, ip, i, now)
      {
        Distributes(now, calls[i].now, p.rate);
        LevelStep(p, calls, ds, Credit(p), ip, i, now);
      }
      forall now
        ensures LevelOf(p, calls, ip)(0, now) == p.burst
      {
        LevelInitially(p, calls, ip, now);
      }
      LevelSuffices(LevelOf(p, calls, ip), p.burst, Credit(p), calls, ds, k);
      assert ds[k] == Allowed(p, Keeping, calls, k);
    }
  }

  /** So is the server's: a call is allowed if and only if, counting from each of the peer's calls so far,
      `burst + rate * elapsed` less the packets allowed since leaves at least one. */
  lemma AllowedExactlyWithinBudget(p: Params, calls: seq<Call>)
    requires Plausible(p) && Patient(p) && Timely(calls)
    ensures Conforms(p.burst, Credit(p), calls, Answers(p, Evicting, calls))
  {
    EvictionUnobservable(p, calls);
    KeepingConforms(p, calls);
  }

  lemma {:induction false} CountFromFirst(calls: seq<Call>, ds: seq<bool>, ip: IpAddr, lo: nat, hi: nat)
    requires lo < hi <= |calls| == |ds| && calls[lo].ip != ip
    ensures Count(calls, ds, ip, lo, hi) == Count(calls, ds, ip, lo + 1, hi)
    decreases hi
  {
    if lo + 1 < hi {
      CountFromFirst(calls, ds, ip, lo, hi - 1);
    }
  }

  ghost predicate Rising(credit: real -> real) {
    forall x, y :: x <= y ==> credit(x) <= credit(y)
  }

  /** The budget of a call counts from any earlier call, not only from the peer's own. */
  lemma {:induction false} WithinBudgetFrom(
      burst: real, credit: real -> real, calls: seq<Call>, ds: seq<bool>, lo: nat, k: nat)
    requires Rising(credit) && Timely(calls) && lo <= k < |calls| == |ds| && WithinBudget(burst, credit, calls, ds, k)
    ensures Budget(burst, credit, calls, ds, calls[k].ip, lo, k, calls[k].now) >= 1.0
    decreases k - lo
  {
    if calls[lo].ip != calls[k].ip {
      WithinBudgetFrom(burst, credit, calls, ds, lo + 1, k);
      CountFromFirst(calls, ds, calls[k].ip, lo, k);
      assert credit(calls[lo].now) <= credit(calls[lo + 1].now);
    }
  }

  lemma {:induction false} BudgetBoundsCount(
      burst: real, credit: real -> real, calls: seq<Call>, ds: seq<bool>, ip: IpAddr,
      lo: nat, hi: nat, from: real, to: real)
    requires burst >= 0.0 && Rising(credit) && Timely(calls) && lo <= hi <= |calls| == |ds|
    requires Conforms(burst, credit, calls, ds)
    requires from <= to && forall k :: lo <= k < hi ==> from <= calls[k].now <= to
    ensures Count(calls, ds, ip, lo, hi) as real <= burst + credit(to) - credit(from)
    decreases hi
  {
    hide WithinBudget;
    if lo < hi {
      var k := hi - 1;
      if calls[k].ip == ip && ds[k] {
        WithinBudgetFrom(burst, credit, calls, ds, lo, k);
        assert credit(from) <= credit(calls[lo].now) && credit(calls[k].now) <= credit(to);
        assert Count(calls, ds, ip, lo, hi) as real == Count(calls, ds, ip, lo, k) as real + 1.0;
      } else {
        BudgetBoundsCount(burst, credit, calls, ds, ip, lo, k, from, to);
      }
    }
  }

  lemma CreditRises(p: Params)
    requires p.rate >= 0.0
    ensures Rising(Credit(p))
  {
    forall x: real, y: real | x <= y
      ensures Credit(p)(x) <= Credit(p)(y)
    {
      ScalesUp(p.rate, x, y);
    }
  }

  lemma SomeCredit(p: Params, calls: seq<Call>, from: real, to: real) returns (credit: real -> real)
    requires Plausible(p) && Patient(p) && Timely(calls)
    ensures Conforms(p.burst, credit, calls, Answers(p, Evicting, calls)) && Rising(credit)
    ensures credit(to) - credit(from) == (to - from) * p.rate
  {
    AllowedExactlyWithinBudget(p, calls);
    CreditRises(p);
    Distributes(to, from, p.rate);
    credit := Credit(p);
  }

  /** In any interval, whatever other peers do, a peer is allowed at most `burst + rate * length` packets. */
  lemma RateBound(p: Params, calls: seq<Call>, ip: IpAddr, lo: nat, hi: nat, from: real, to: real)
    requires Plausible(p) && Patient(p) && Timely(calls) && lo <= hi <= |calls| && from <= to
    requires forall i :: lo <= i < hi ==> from <= calls[i].now <= to
    ensures Count(calls, Answers(p, Evicting, calls), ip, lo, hi) as real <= p.burst + (to - from) * p.rate
  {
    var credit := SomeCredit(p, calls, from, to);
    BudgetBoundsCount(p.burst, credit, calls, Answers(p, Evicting, calls), ip, lo, hi, from, to);
  }

  /** The server's own setting: ten packets at once, five a second, forgotten after a minute. */
  lemma ServerRateBound(calls: seq<Call>, ip: IpAddr, lo: nat, hi: nat, from: real, to: real)
    requires Timely(calls) && lo <= hi <= |calls| && from <= to
    requires forall i :: lo <= i < hi ==> from <= calls[i].now <= to
    ensures Count(calls, Answers(Params(10.0, 5.0, 60), Evicting, calls), ip, lo, hi) as real
            <= 10.0 + (to - from) * 5.0
  {
    RateBound(Params(10.0, 5.0, 60), calls, ip, lo, hi, from, to);
  }

  // ---- When eviction shows ----

  /** A call at `now` on a bucket left at `at` with `before` tokens is allowed and leaves `after`: at the same instant,
      after a partial refill, or after the bucket was forgotten. */
  ghost predicate Spends(p: Params, before: real, at: real, now: real, after: real) {
    if now == at then before >= 1.0 && after == before - 1.0
    else if now - at >= (p.idle + 1) as real then p.burst >= 1.0 && after == p.burst - 1.0
    else at < now && 1.0 <= before + (now - at) * p.rate <= p.burst && after == before + (now - at) * p.rate - 1.0
  }

  /** A peer's calls that are all allowed, with the tokens each leaves. */
  ghost predicate Traces(p: Params, times: seq<real>, tokens: seq<real>) {
    && |times| == |tokens|
    && (times != [] ==> p.burst >= 1.0 && tokens[0] == p.burst - 1.0)
    && forall k :: 0 < k < |times| ==> Spends(p, tokens[k - 1], times[k - 1], times[k], tokens[k])
  }

  function CallsAt(ip: IpAddr, times: seq<real>): (calls: seq<Call>)
    ensures |calls| == |times| && forall i :: 0 <= i < |calls| ==> calls[i] == Call(ip, times[i])
  {
    seq(|times|, i requires 0 <= i < |times| => Call(ip, times[i]))
  }

  lemma SpendsAgain(p: Params, ip: IpAddr, before: real, at: real, now: real, after: real)
    requires at <= now < at + (p.idle + 1) as real && Spends(p, before, at, now, after)
    ensures var m, c := map[ip := Bucket(before, at, at)], Call(ip, now);
            Decision(p, Evicting, m, c) && After(p, Evicting, m, c) == map[ip := Bucket(after, now, now)]
  {
    var b := Bucket(before, at, at);
    var m := map[ip := b];
    assert Kept(p, b, now) && Retained(p, m, now) == m;
    RefillSpends(p, before, at, now, after);
    hide Refilled, Spends, Kept, Retained;
    assert Lookup(m, ip) == Some(b) && m[ip := Bucket(after, now, now)] == map[ip := Bucket(after, now, now)];
  }

  lemma RefillSpends(p: Params, before: real, at: real, now: real, after: real)
    requires at <= now < at + (p.idle + 1) as real && Spends(p, before, at, now, after)
    ensures var refilled := Refilled(p, Some(Bucket(before, at, at)), now);
            Grants(refilled) && Charged(refilled) == Bucket(after, now, now)
  {
  }

  /** A peer unknown after the sweep spends the first of a full burst. */
  lemma SpendsAfresh(p: Params, m: Buckets, ip: IpAddr, now: real)
    requires Swept(p, Evicting, m, now) == map[] && p.burst >= 1.0
    ensures Decision(p, Evicting, m, Call(ip, now))
    ensures After(p, Evicting, m, Call(ip, now)) == map[ip := Bucket(p.burst - 1.0, now, now)]
  {
  }

  lemma SweptAway(p: Params, ip: IpAddr, tokens: real, at: real, now: real)
    requires now - at >= (p.idle + 1) as real
    ensures Swept(p, Evicting, map[ip := Bucket(tokens, at, at)], now) == map[]
  {
  }

  lemma NoCallsYet(p: Params, calls: seq<Call>)
    ensures State(p, Evicting, calls[..0]) == map[]
    ensures forall now :: Swept(p, Evicting, map[], now) == map[]
  {
  }

  lemma {:induction false} TraceAllowed(p: Params, ip: IpAddr, times: seq<real>, tokens: seq<real>, k: nat)
    requires Traces(p, times, tokens) && k < |times|
    ensures var calls := CallsAt(ip, times);
            && Allowed(p, Evicting, calls, k)
            && State(p, Evicting, calls[..k + 1]) == map[ip := Bucket(tokens[k], times[k], times[k])]
  {
    hide State, After, Decision, Swept, Spends;
    var calls := CallsAt(ip, times);
    StateStep(p, Evicting, calls, k);
    if k == 0 {
      NoCallsYet(p, calls);
      SpendsAfresh(p, map[], ip, times[0]);
    } else {
      TraceAllowed(p, ip, times, tokens, k - 1);
      SpendsOn(p, ip, tokens[k - 1], times[k - 1], times[k], tokens[k]);
    }
  }

  lemma SpendsOn(p: Params, ip: IpAddr, before: real, at: real, now: real, after: real)
    requires Spends(p, before, at, now, after)
    ensures var m, c := map[ip := Bucket(before, at, at)], Call(ip, now);
            Decision(p, Evicting, m, c) && After(p, Evicting, m, c) == map[ip := Bucket(after, now, now)]
  {
    hide After, Decision, Swept;
    if now - at >= (p.idle + 1) as real {
      SweptAway(p, ip, before, at, now);
      SpendsAfresh(p, map[ip := Bucket(before, at, at)], ip, now);
    } else {
      SpendsAgain(p, ip, before, at, now, after);
    }
  }

  lemma {:induction false} CountAll(calls: seq<Call>, ds: seq<bool>, ip: IpAddr, hi: nat)
    requires hi <= |calls| == |ds| && forall i :: 0 <= i < hi ==> calls[i].ip == ip && ds[i]
    ensures Count(calls, ds, ip, 0, hi) == hi
  {
    if hi == 0 {
    } else {
      CountAll(calls, ds, ip, hi - 1);
    }
  }

  ghost predicate Rises(times: seq<real>) {
    forall i, j :: 0 <= i < j < |times| ==> times[i] <= times[j]
  }

  /** More calls than a budget allows, all of them allowed. */
  ghost predicate Overruns(p: Params, times: seq<real>, tokens: seq<real>) {
    && Traces(p, times, tokens) && Rises(times) && times != []
    && |times| as real > p.burst + (times[|times| - 1] - times[0]) * p.rate
  }

  lemma OverrunCount(p: Params, ip: IpAddr, times: seq<real>, tokens: seq<real>)
    requires Overruns(p, times, tokens)
    ensures var calls := CallsAt(ip, times);
            Timely(calls) && Count(calls, Answers(p, Evicting, calls), ip, 0, |calls|) == |calls|
  {
    hide Traces;
    var calls := CallsAt(ip, times);
    forall k | 0 <= k < |calls|
      ensures Answers(p, Evicting, calls)[k]
    {
      TraceAllowed(p, ip, times, tokens, k);
    }
    CountAll(calls, Answers(p, Evicting, calls), ip, |calls|);
  }

  /** A limiter that never forgets stays within the budget, so such a run tells it apart. */
  lemma OverrunShows(p: Params, ip: IpAddr, times: seq<real>, tokens: seq<real>)
    requires Plausible(p) && Overruns(p, times, tokens)
    ensures var calls := CallsAt(ip, times); Answers(p, Evicting, calls) != Answers(p, Keeping, calls)
  {
    hide Traces, Timely, Conforms, Rising, Count, Credit, Answers;
    var calls := CallsAt(ip, times);
    var ds, last := Answers(p, Keeping, calls), |calls| - 1;
    OverrunCount(p, ip, times, tokens);
    if Answers(p, Evicting, calls) == ds {
      KeepingConforms(p, calls);
      CreditRises(p);
      BudgetBoundsCount(p.burst, Credit(p), calls, ds, ip, 0, |calls|, times[0], times[last]);
      CreditSpan(p, times[0], times[last]);
    }
  }

  lemma CreditSpan(p: Params, from: real, to: real)
    ensures Credit(p)(to) - Credit(p)(from) == (to - from) * p.rate
  {
    Distributes(to, from, p.rate);
  }

  lemma SpendsAtOnce(p: Params, before: real, at: real)
    requires before >= 1.0
    ensures Spends(p, before, at, at, before - 1.0)
  {
  }

  lemma SpendsForgotten(p: Params, before: real, at: real, now: real)
    requires now - at >= (p.idle + 1) as real && p.burst >= 1.0
    ensures Spends(p, before, at, now, p.burst - 1.0)
  {
  }

  lemma SpendsRefilled(p: Params, before: real, at: real, now: real, gap: real)
    requires now - at == gap && 0.0 < gap < (p.idle + 1) as real && before + gap * p.rate == 1.0 <= p.burst
    ensures Spends(p, before, at, now, 0.0)
  {
  }

  /** The times of `n` calls at each of three instants, and the tokens that each leaves of a full bucket. */
  function ThreeTimes(n: nat, t: real, k: nat): real {
    if k < n then 0.0 else if k < 2 * n then t else t + t
  }

  function ThreeTokens(p: Params, n: nat, k: nat): real {
    p.burst - 1.0 - (if k < n then k else if k < 2 * n then k - n else k - 2 * n) as real
  }

  lemma ThreeSpends(p: Params, n: nat, k: nat)
    requires n as real <= p.burst && 0 < k < 3 * n
    ensures var t := (p.idle + 1) as real;
            Spends(p, ThreeTokens(p, n, k - 1), ThreeTimes(n, t, k - 1), ThreeTimes(n, t, k), ThreeTokens(p, n, k))
  {
    hide Spends;
    var t := (p.idle + 1) as real;
    if k == n || k == 2 * n {
      SpendsForgotten(p, ThreeTokens(p, n, k - 1), ThreeTimes(n, t, k - 1), ThreeTimes(n, t, k));
    } else {
      SpendsAtOnce(p, ThreeTokens(p, n, k - 1), ThreeTimes(n, t, k));
    }
  }

  lemma ThreeTraces(p: Params, n: nat) returns (times: seq<real>, tokens: seq<real>)
    requires 1.0 <= n as real <= p.burst
    ensures Traces(p, times, tokens) && Rises(times) && |times| == 3 * n
    ensures var t := (p.idle + 1) as real; times[|times| - 1] - times[0] == t + t
  {
    hide Spends;
    var t := (p.idle + 1) as real;
    times := seq(3 * n, k requires 0 <= k < 3 * n => ThreeTimes(n, t, k));
    tokens := seq(3 * n, k requires 0 <= k < 3 * n => ThreeTokens(p, n, k));
    forall k | 0 < k < |times|
      ensures Spends(p, tokens[k - 1], times[k - 1], times[k], tokens[k])
    {
      ThreeSpends(p, n, k);
    }
    forall i, j | 0 <= i < j < |times|
      ensures times[i] <= times[j]
    {
      ThreeSorted(n, t, i, j);
    }
  }

  /** Three full bursts, each as soon as the bucket is forgotten. */
  lemma ThreeBursts(p: Params, n: nat, rest: real, earned: real) returns (times: seq<real>, tokens: seq<real>)
    requires p.burst == n as real + rest && n > 0 && 0.0 <= rest < 1.0
    requires (p.idle + 1) as real * p.rate == earned && 2.0 * earned < 2.0 * n as real - rest
    ensures Overruns(p, times, tokens)
  {
    hide Traces, Rises;
    times, tokens := ThreeTraces(p, n);
    Doubled((p.idle + 1) as real, p.rate);
    OverrunsBy(p, times, tokens, 2.0 * earned);
  }

  lemma OverrunsBy(p: Params, times: seq<real>, tokens: seq<real>, earned: real)
    requires Traces(p, times, tokens) && Rises(times) && times != []
    requires (times[|times| - 1] - times[0]) * p.rate == earned && |times| as real > p.burst + earned
    ensures Overruns(p, times, tokens)
  {
    hide Traces, Rises;
  }

  lemma ThreeSorted(n: nat, t: real, i: nat, j: nat)
    requires t >= 0.0 && i <= j
    ensures ThreeTimes(n, t, i) <= ThreeTimes(n, t, j)
  {
  }

  lemma Doubled(t: real, r: real)
    ensures (t + t) * r == 2.0 * (t * r)
  {
  }

  /** The times of a full burst, one more call after `gap`, and the same again when the bucket is forgotten. */
  function DrainTimes(n: nat, t: real, gap: real, k: nat): real {
    if k < n then 0.0 else if k == n then gap else if k <= 2 * n then gap + t else gap + t + gap
  }

  function DrainTokens(p: Params, n: nat, k: nat): real {
    if k < n then p.burst - 1.0 - k as real
    else if n < k <= 2 * n then p.burst - 1.0 - (k - n - 1) as real
    else 0.0
  }

  lemma DrainSpends(p: Params, n: nat, rest: real, gap: real, k: nat)
    requires p.burst == n as real + rest && n > 0 && 0.0 <= rest < 1.0 && 0 < k < 2 * n + 2
    requires 0.0 < gap < (p.idle + 1) as real && gap * p.rate == 1.0 - rest
    ensures var t := (p.idle + 1) as real;
            Spends(p, DrainTokens(p, n, k - 1), DrainTimes(n, t, gap, k - 1), DrainTimes(n, t, gap, k),
                   DrainTokens(p, n, k))
  {
    hide Spends;
    var t := (p.idle + 1) as real;
    if k == n || k == 2 * n + 1 {
      SpendsRefilled(p, rest, DrainTimes(n, t, gap, k - 1), DrainTimes(n, t, gap, k), gap);
    } else if k == n + 1 {
      SpendsForgotten(p, 0.0, gap, gap + t);
    } else {
      SpendsAtOnce(p, DrainTokens(p, n, k - 1), DrainTimes(n, t, gap, k));
    }
  }

  lemma DrainTraces(p: Params, n: nat, rest: real, gap: real) returns (times: seq<real>, tokens: seq<real>)
    requires p.burst == n as real + rest && n > 0 && 0.0 <= rest < 1.0
    requires 0.0 < gap < (p.idle + 1) as real && gap * p.rate == 1.0 - rest
    ensures Traces(p, times, tokens) && Rises(times) && |times| == 2 * n + 2
    ensures times[|times| - 1] - times[0] == gap + (p.idle + 1) as real + gap
  {
    hide Spends;
    var t := (p.idle + 1) as real;
    times := seq(2 * n + 2, k requires 0 <= k < 2 * n + 2 => DrainTimes(n, t, gap, k));
    tokens := seq(2 * n + 2, k requires 0 <= k < 2 * n + 2 => DrainTokens(p, n, k));
    forall k | 0 < k < |times|
      ensures Spends(p, tokens[k - 1], times[k - 1], times[k], tokens[k])
    {
      DrainSpends(p, n, rest, gap, k);
    }
    forall i, j | 0 <= i < j < |times|
      ensures times[i] <= times[j]
    {
      DrainSorted(n, t, gap, i, j);
    }
  }

  /** Twice a full burst and one more call once a token is whole again, the second time with a forgotten bucket. */
  lemma DrainedBursts(p: Params, n: nat, rest: real, gap: real, earned: real)
    returns (times: seq<real>, tokens: seq<real>)
    requires p.burst == n as real + rest && n > 0 && 0.0 <= rest < 1.0
    requires 0.0 < gap < (p.idle + 1) as real && gap * p.rate == 1.0 - rest
    requires (p.idle + 1) as real * p.rate == earned < p.burst
    ensures Overruns(p, times, tokens)
  {
    hide Traces, Rises;
    times, tokens := DrainTraces(p, n, rest, gap);
    DrainSpan(gap, (p.idle + 1) as real, p.rate);
    OverrunsBy(p, times, tokens, 2.0 * (1.0 - rest) + earned);
  }

  lemma DrainSorted(n: nat, t: real, gap: real, i: nat, j: nat)
    requires t >= 0.0 && gap >= 0.0 && i <= j
    ensures DrainTimes(n, t, gap, i) <= DrainTimes(n, t, gap, j)
  {
  }

  lemma DrainSpan(gap: real, t: real, r: real)
    ensures (gap + t + gap) * r == 2.0 * (gap * r) + t * r
  {
  }

  lemma NothingEarned(long: real)
    ensures long * 0.0 == 0.0
  {
  }

  lemma Quotient(credit: real, rate: real)
    requires rate > 0.0
    ensures credit / rate * rate == credit
  {
  }

  /** The time in which a limiter earns `credit`, shorter than one in which it earns more. */
  lemma EarningTime(rate: real, credit: real, long: real) returns (gap: real)
    requires rate >= 0.0 && 0.0 < credit < long * rate && long > 0.0
    ensures 0.0 < gap < long && gap * rate == credit
  {
    NothingEarned(long);
    gap := credit / rate;
    Quotient(credit, rate);
    if gap >= long {
      ScalesUp(rate, long, gap);
    }
    if gap <= 0.0 {
      ScalesUp(rate, gap, 0.0);
    }
  }

  lemma ImpatientMeans(p: Params)
    requires !Patient(p)
    ensures (p.idle + 1) as real * p.rate < p.burst
  {
  }

  /** An impatient limiter with a whole token to give can be overrun. */
  lemma ImpatientOverrun(p: Params) returns (times: seq<real>, tokens: seq<real>)
    requires Plausible(p) && p.burst >= 1.0 && !Patient(p)
    ensures Overruns(p, times, tokens)
  {
    hide Overruns, Patient;
    ImpatientMeans(p);
    var n: nat := p.burst.Floor;
    var rest, t := p.burst - n as real, (p.idle + 1) as real;
    var earned := t * p.rate;
    if 2.0 * earned < 2.0 * n as real - rest {
      times, tokens := ThreeBursts(p, n, rest, earned);
    } else {
      assert n as real >= 1.0 && earned < n as real + rest;
      assert 0.0 < 1.0 - rest < earned;
      var gap := EarningTime(p.rate, 1.0 - rest, t);
      times, tokens := DrainedBursts(p, n, rest, gap, earned);
    }
  }

  /** A limiter without a whole token to give never allows anything. */
  lemma NeverAllows(p: Params, mode: Mode, calls: seq<Call>, k: nat)
    requires Plausible(p) && p.burst < 1.0 && Timely(calls) && k < |calls|
    ensures !Allowed(p, mode, calls, k)
  {
    var m := State(p, mode, calls[..k]);
    StateSettled(p, mode, calls, k, calls[k].now);
    RefilledSettled(p, Lookup(Swept(p, mode, m, calls[k].now), calls[k].ip), calls[k].now);
  }

  /** Eviction is unobservable over all runs exactly when a forgotten bucket would have been full again, or no call is
      ever allowed. */
  lemma EvictionUnobservableExactly(p: Params)
    requires Plausible(p)
    ensures (forall calls :: Timely(calls) ==> Answers(p, Evicting, calls) == Answers(p, Keeping, calls))
       <==> Patient(p) || p.burst < 1.0
  {
    if Patient(p) || p.burst < 1.0 {
      forall calls | Timely(calls)
        ensures Answers(p, Evicting, calls) == Answers(p, Keeping, calls)
      {
        if Patient(p) {
          EvictionUnobservable(p, calls);
        } else {
          forall k | 0 <= k < |calls|
            ensures Allowed(p, Evicting, calls, k) == Allowed(p, Keeping, calls, k)
          {
            NeverAllows(p, Evicting, calls, k);
            NeverAllows(p, Keeping, calls, k);
          }
        }
      }
    } else {
      var times, tokens := ImpatientOverrun(p);
      var ip := V4([0, 0, 0, 0]);
      OverrunCount(p, ip, times, tokens);
      OverrunShows(p, ip, times, tokens);
    }
  }

  /** In the span of any calls of the run, each peer is allowed at most the burst and what the span earns. */
  ghost predicate Bounded(p: Params, calls: seq<Call>) {
    forall ip, lo: nat, hi: nat | lo < hi <= |calls| ::
      Count(calls, Answers(p, Evicting, calls), ip, lo, hi) as real
      <= p.burst + (calls[hi - 1].now - calls[lo].now) * p.rate
  }

  lemma {:induction false} CountNone(calls: seq<Call>, ds: seq<bool>, ip: IpAddr, lo: nat, hi: nat)
    requires hi <= |calls| == |ds| && forall i :: 0 <= i < |ds| ==> !ds[i]
    ensures Count(calls, ds, ip, lo, hi) == 0
    decreases hi
  {
    if hi > lo {
      CountNone(calls, ds, ip, lo, hi - 1);
    }
  }

  lemma NothingCounted(p: Params, calls: seq<Call>, ip: IpAddr, lo: nat, hi: nat)
    requires Plausible(p) && p.burst < 1.0 && Timely(calls) && hi <= |calls|
    ensures Count(calls, Answers(p, Evicting, calls), ip, lo, hi) == 0
  {
    forall k | 0 <= k < |calls|
      ensures !Allowed(p, Evicting, calls, k)
    {
      NeverAllows(p, Evicting, calls, k);
    }
    CountNone(calls, Answers(p, Evicting, calls), ip, lo, hi);
  }

  lemma EarnsNothingLess(p: Params, from: real, to: real)
    requires Plausible(p) && from <= to
    ensures 0.0 <= p.burst + (to - from) * p.rate
  {
    var span := to - from;
    Scales(span, p.rate);
    assert 0.0 <= p.burst + span * p.rate;
  }

  lemma BoundAt(p: Params, calls: seq<Call>, ip: IpAddr, lo: nat, hi: nat, from: real, to: real)
    requires Plausible(p) && Timely(calls) && (Patient(p) || p.burst < 1.0) && lo <= hi <= |calls| && from <= to
    requires forall i :: lo <= i < hi ==> from <= calls[i].now <= to
    ensures Count(calls, Answers(p, Evicting, calls), ip, lo, hi) as real <= p.burst + (to - from) * p.rate
  {
    hide Patient, Timely, Answers, Count;
    if p.burst < 1.0 {
      NothingCounted(p, calls, ip, lo, hi);
      EarnsNothingLess(p, from, to);
    } else {
      RateBound(p, calls, ip, lo, hi, from, to);
    }
  }

  lemma BoundHolds(p: Params, calls: seq<Call>)
    requires Plausible(p) && Timely(calls) && (Patient(p) || p.burst < 1.0)
    ensures Bounded(p, calls)
  {
    hide Patient, Answers, Count, Plausible;
    forall ip, lo: nat, hi: nat | lo < hi <= |calls|
      ensures Count(calls, Answers(p, Evicting, calls), ip, lo, hi) as real
              <= p.burst + (calls[hi - 1].now - calls[lo].now) * p.rate
    {
      var from, to := calls[lo].now, calls[hi - 1].now;
      assert forall i :: lo <= i < hi ==> from <= calls[i].now <= to;
      BoundAt(p, calls, ip, lo, hi, from, to);
    }
  }

  /** The rate bound holds over all runs exactly under the same condition. */
  lemma RateBoundExactly(p: Params)
    requires Plausible(p)
    ensures (forall calls :: Timely(calls) ==> Bounded(p, calls)) <==> Patient(p) || p.burst < 1.0
  {
    hide Bounded, Patient;
    if Patient(p) || p.burst < 1.0 {
      forall calls | Timely(calls)
        ensures Bounded(p, calls)
      {
        BoundHolds(p, calls);
      }
    } else {
      var times, tokens := ImpatientOverrun(p);
      var ip := V4([0, 0, 0, 0]);
      OverrunCount(p, ip, times, tokens);
      OverrunUnbounded(p, ip, times, tokens);
    }
  }

  lemma OverrunUnbounded(p: Params, ip: IpAddr, times: seq<real>, tokens: seq<real>)
    requires Overruns(p, times, tokens)
    ensures !Bounded(p, CallsAt(ip, times))
  {
    hide Traces, Count, Answers;
    var calls := CallsAt(ip, times);
    OverrunCount(p, ip, times, tokens);
    assert Count(calls, Answers(p, Evicting, calls), ip, 0, |calls|) as real
           > p.burst + (calls[|calls| - 1].now - calls[0].now) * p.rate;
  }

  // ---- Peers do not affect each other ----

  /** The calls of one peer. */
  function Project(calls: seq<Call>, ip: IpAddr): seq<Call> {
    if calls == [] then []
    else
      var last := calls[|calls| - 1];
      Project(calls[..|calls| - 1], ip) + if last.ip == ip then [last] else []
  }

  /** The peer's bucket in the full run is the one it has alone, unless it is already due for eviction. */
  ghost predicate Alike(p: Params, full: Buckets, alone: Buckets, ip: IpAddr, now: real) {
    || Lookup(full, ip) == Lookup(alone, ip)
    || (ip !in full && ip in alone && !Kept(p, alone[ip], now))
  }

  lemma LaterStillDue(p: Params, b: Bucket, now: real, later: real)
    requires !Kept(p, b, now) && now <= later
    ensures !Kept(p, b, later)
  {
  }

  lemma {:induction false} StatesAlike(p: Params, calls: seq<Call>, ip: IpAddr, now: real)
    requires Timely(calls) && (calls != [] ==> calls[|calls| - 1].now <= now)
    ensures Alike(p, State(p, Evicting, calls), State(p, Evicting, Project(calls, ip)), ip, now)
  {
    if calls == [] {
    } else {
      var front, last := calls[..|calls| - 1], calls[|calls| - 1];
      StatesAlike(p, front, ip, last.now);
      var full, alone := State(p, Evicting, front), State(p, Evicting, Project(front, ip));
      assert Project(front, ip) + [] == Project(front, ip);
      if last.ip == ip {
        SweptAlike(p, full, alone, ip, last.now);
        ProjectStep(p, calls, ip);
      } else if ip in alone && !Kept(p, alone[ip], last.now) {
        LaterStillDue(p, alone[ip], last.now, now);
      }
    }
  }

  lemma ProjectStep(p: Params, calls: seq<Call>, ip: IpAddr)
    requires calls != [] && calls[|calls| - 1].ip == ip
    ensures var alone, n := Project(calls, ip), |calls| - 1;
            && alone != [] && alone[|alone| - 1] == calls[n]
            && alone[..|alone| - 1] == Project(calls[..n], ip)
            && State(p, Evicting, alone) == After(p, Evicting, State(p, Evicting, Project(calls[..n], ip)), calls[n])
  {
    assert Project(calls, ip)[..|Project(calls, ip)| - 1] == Project(calls[..|calls| - 1], ip);
  }

  lemma SweptAlike(p: Params, full: Buckets, alone: Buckets, ip: IpAddr, now: real)
    requires Alike(p, full, alone, ip, now)
    ensures Lookup(Swept(p, Evicting, full, now), ip) == Lookup(Swept(p, Evicting, alone, now), ip)
  {
  }

  /** Each answer a peer gets, among any other peers' calls, is the answer of a limiter it has to itself. */
  lemma PeerIsolation(p: Params, calls: seq<Call>, k: nat)
    requires Timely(calls) && k < |calls|
    ensures var ip := calls[k].ip;
            var alone := Project(calls[..k + 1], ip);
            && alone != [] && alone[|alone| - 1] == calls[k]
            && Allowed(p, Evicting, calls, k) == Allowed(p, Evicting, alone, |alone| - 1)
  {
    var ip := calls[k].ip;
    var upTo := calls[..k + 1];
    assert upTo[..k] == calls[..k];
    ProjectStep(p, upTo, ip);
    StatesAlike(p, calls[..k], ip, calls[k].now);
    SweptAlike(p, State(p, Evicting, calls[..k]), State(p, Evicting, Project(calls[..k], ip)), ip, calls[k].now);
  }

  /** A remembered peer was last seen at one of its calls. */
  lemma {:induction false} SeenAtCall(p: Params, calls: seq<Call>, k: nat, ip: IpAddr) returns (i: nat)
    requires k <= |calls| && ip in State(p, Evicting, calls[..k])
    ensures i < k && calls[i].ip == ip && calls[i].now == State(p, Evicting, calls[..k])[ip].lastSeen
  {
    if k == 0 {
      assert false;
    } else {
      StateStep(p, Evicting, calls, k - 1);
      if calls[k - 1].ip == ip {
        i := k - 1;
      } else {
        i := SeenAtCall(p, calls, k - 1, ip);
      }
    }
  }

  lemma RefilledByOne(p: Params, b: Bucket, now: real, gap: real)
    requires Plausible(p) && p.burst >= 1.0 && Settled(p, b, now)
    requires 0.0 < gap <= now - b.lastSeen && p.rate * gap >= 1.0
    ensures Grants(Refilled(p, Some(b), now))
  {
    ScalesUp(p.rate, gap, now - b.lastSeen);
  }

  /** A peer whose calls are at least `1 / rate` apart is never denied, whatever others do and however soon
      idle peers are forgotten. */
  lemma SpacedCallsAllowed(p: Params, calls: seq<Call>, k: nat, gap: real)
    requires Plausible(p) && p.burst >= 1.0 && Timely(calls) && k < |calls|
    requires 0.0 < gap && p.rate * gap >= 1.0
    requires forall i :: 0 <= i < k && calls[i].ip == calls[k].ip ==> calls[k].now - calls[i].now >= gap
    ensures Allowed(p, Evicting, calls, k)
  {
    var m, c := State(p, Evicting, calls[..k]), calls[k];
    StateSettled(p, Evicting, calls, k, c.now);
    if c.ip in m {
      var i := SeenAtCall(p, calls, k, c.ip);
      RefilledByOne(p, m[c.ip], c.now, gap);
    }
  }
}
