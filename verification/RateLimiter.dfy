/** core/security/rate_limiter.go: per-IP token buckets with lazy refill and periodic cleanup. Times are
    in seconds, tokens and rate are real numbers. */
module RateLimiter {
  import opened Common

  datatype Config = Config(capacity: nat, rate: real) {
    predicate Valid() {
      capacity > 0 && rate > 0.0
    }
  }

  datatype Bucket = Bucket(tokens: real, last: real)

  // ---------- one call on one bucket ----------

  /** The tokens after the refill at time now; an absent bucket is a full one. */
  function Refilled(cfg: Config, b: Option<Bucket>, now: real): real {
    match b
    case None => cfg.capacity as real
    case Some(b) =>
      var t := b.tokens + Times(now - b.last, cfg.rate);
      if t > cfg.capacity as real then cfg.capacity as real else t
  }

  predicate Admits(cfg: Config, b: Option<Bucket>, now: real) {
    Refilled(cfg, b, now) >= 1.0
  }

  function After(cfg: Config, b: Option<Bucket>, now: real): (after: Bucket)
    ensures after.last == now
  {
    Bucket(Refilled(cfg, b, now) - if Admits(cfg, b, now) then 1.0 else 0.0, now)
  }

  // ---------- the full history of one IP ----------

  ghost predicate Ordered(times: seq<real>) {
    forall i, j :: 0 <= i <= j < |times| ==> times[i] <= times[j]
  }

  /** The bucket after the first k calls, never cleaned up. */
  ghost function BucketAfter(cfg: Config, times: seq<real>, k: nat): Option<Bucket>
    requires k <= |times|
  {
    if k == 0 then None else Some(After(cfg, BucketAfter(cfg, times, k - 1), times[k - 1]))
  }

  ghost predicate Admitted(cfg: Config, times: seq<real>, k: nat)
    requires k < |times|
  {
    Admits(cfg, BucketAfter(cfg, times, k), times[k])
  }

  /** How many of the calls j..k-1 were admitted. */
  ghost function AdmittedIn(cfg: Config, times: seq<real>, j: nat, k: nat): nat
    requires k <= |times|
  {
    if j >= k then 0 else AdmittedIn(cfg, times, j, k - 1) + if Admitted(cfg, times, k - 1) then 1 else 0
  }

  /** What the capacity and the refill since call j allow at call k, less what j..k-1 used. */
  ghost function Allowance(cfg: Config, times: seq<real>, j: nat, k: nat): real
    requires j <= k < |times|
  {
    cfg.capacity as real + Times(times[k] - times[j], cfg.rate) - AdmittedIn(cfg, times, j, k) as real
  }

  lemma TimesSplit(a: real, b: real, c: real, rate: real)
    ensures Times(c - a, rate) == Times(b - a, rate) + Times(c - b, rate)
    ensures Times(a - a, rate) == 0.0
  {
  }

  /** The lazily refilled level is the least of all allowances: it is at most each of them, and
      equal to the one returned. */
  lemma {:induction false} LevelIsLeastAllowance(cfg: Config, times: seq<real>, k: nat) returns (least: nat)
    requires k < |times|
    ensures least <= k
    ensures Refilled(cfg, BucketAfter(cfg, times, k), times[k]) == Allowance(cfg, times, least, k)
    ensures forall j: nat :: j <= k ==>
      Refilled(cfg, BucketAfter(cfg, times, k), times[k]) <= Allowance(cfg, times, j, k)
  {
    hide Times;
    TimesSplit(times[k], times[k], times[k], cfg.rate);
    least := k;
    if k == 0 {
    } else {
      var before := LevelIsLeastAllowance(cfg, times, k - 1);
      forall j: nat | j < k
        ensures Allowance(cfg, times, j, k) == Allowance(cfg, times, j, k - 1) -
          (if Admitted(cfg, times, k - 1) then 1.0 else 0.0) + Times(times[k] - times[k - 1], cfg.rate)
      {
        TimesSplit(times[j], times[k - 1], times[k], cfg.rate);
      }
      if Refilled(cfg, BucketAfter(cfg, times, k), times[k]) != cfg.capacity as real {
        least := before;
      }
    }
  }

  /** Token bucket exactness: call k is admitted if and only if, counted from every earlier call j,
      the admissions since then and this one fit into the capacity plus the refill. */
  lemma AdmittedExactly(cfg: Config, times: seq<real>, k: nat)
    requires k < |times|
    ensures Admitted(cfg, times, k) <==>
      forall j: nat :: j <= k ==>
        (AdmittedIn(cfg, times, j, k) + 1) as real <= cfg.capacity as real + Times(times[k] - times[j], cfg.rate)
  {
    hide Times;
    var least := LevelIsLeastAllowance(cfg, times, k);
    forall j: nat | j <= k
      ensures Allowance(cfg, times, j, k) >= 1.0 <==>
        (AdmittedIn(cfg, times, j, k) + 1) as real <= cfg.capacity as real + Times(times[k] - times[j], cfg.rate)
    {
    }
  }

  /** No span of calls i..k admits more than the capacity plus the refill over its duration. */
  lemma {:induction false} SpanBound(cfg: Config, times: seq<real>, i: nat, k: nat)
    requires cfg.Valid() && Ordered(times) && i <= k < |times|
    ensures AdmittedIn(cfg, times, i, k + 1) as real <= cfg.capacity as real + Times(times[k] - times[i], cfg.rate)
  {
    if Admitted(cfg, times, k) {
      AdmittedExactly(cfg, times, k);
    } else if i < k {
      SpanBound(cfg, times, i, k - 1);
      TimesSplit(times[i], times[k - 1], times[k], cfg.rate);
      TimesNonNegative(times[k] - times[k - 1], cfg.rate);
    } else {
      TimesSplit(times[k], times[k], times[k], cfg.rate);
    }
  }

  /** Buckets never go into debt and remember the time of the last call. */
  lemma {:induction false} BucketSane(cfg: Config, times: seq<real>, k: nat)
    requires cfg.Valid() && Ordered(times) && 0 < k <= |times|
    ensures var b := BucketAfter(cfg, times, k).value;
      b.tokens >= 0.0 && b.last == times[k - 1] && Refilled(cfg, BucketAfter(cfg, times, k - 1), times[k - 1]) >= 0.0
  {
    if k == 1 {
    } else {
      BucketSane(cfg, times, k - 1);
      TimesNonNegative(times[k - 1] - times[k - 2], cfg.rate);
    }
  }

  // ---------- runs over all IPs, with cleanup ----------

  datatype Op = DoAllow(ip: string, now: real) | DoCleanup(maxAge: real, now: real)

  type State = map<string, Bucket>

  function Find(s: State, ip: string): Option<Bucket> {
    if ip in s then Some(s[ip]) else None
  }

  /** Cleanup drops every bucket whose last refill is before now - maxAge. */
  function Cleaned(s: State, maxAge: real, now: real): State {
    map ip | ip in s && !(s[ip].last < now - maxAge) :: s[ip]
  }

  function Step(cfg: Config, s: State, op: Op): State {
    match op
    case DoAllow(ip, now) => s[ip := After(cfg, Find(s, ip), now)]
    case DoCleanup(maxAge, now) => Cleaned(s, maxAge, now)
  }

  /** The state after the first k operations. */
  ghost function RunUpTo(cfg: Config, ops: seq<Op>, k: nat): State
    requires k <= |ops|
  {
    if k == 0 then map[] else Step(cfg, RunUpTo(cfg, ops, k - 1), ops[k - 1])
  }

  /** What Allow answers at position k of the run. */
  ghost predicate Answers(cfg: Config, ops: seq<Op>, k: nat)
    requires k < |ops| && ops[k].DoAllow?
  {
    Admits(cfg, Find(RunUpTo(cfg, ops, k), ops[k].ip), ops[k].now)
  }

  ghost predicate Clocked(ops: seq<Op>) {
    forall i, j :: 0 <= i <= j < |ops| ==> ops[i].now <= ops[j].now
  }

  /** The times of all calls of one IP among the first k operations. */
  ghost function CallsOf(ops: seq<Op>, k: nat, ip: string): (r: seq<real>)
    requires k <= |ops|
    ensures forall t :: t in r ==> exists i :: 0 <= i < k && ops[i].now == t
  {
    if k == 0 then []
    else
      CallsOf(ops, k - 1, ip) + if ops[k - 1].DoAllow? && ops[k - 1].ip == ip then [ops[k - 1].now] else []
  }

  lemma {:induction false} CallsOrdered(ops: seq<Op>, k: nat, ip: string)
    requires Clocked(ops) && k <= |ops|
    ensures Ordered(CallsOf(ops, k, ip))
  {
    if k == 0 {
    } else {
      CallsOrdered(ops, k - 1, ip);
      var before := CallsOf(ops, k - 1, ip);
      forall i | 0 <= i < |before| ensures before[i] <= ops[k - 1].now {
        assert before[i] in before;
      }
    }
  }

  lemma {:induction false} BucketOfPrefix(cfg: Config, a: seq<real>, b: seq<real>, k: nat)
    requires k <= |a|
    ensures BucketAfter(cfg, a + b, k) == BucketAfter(cfg, a, k)
  {
    if k == 0 {
    } else {
      BucketOfPrefix(cfg, a, b, k - 1);
    }
  }

  /** The bucket that the full history of an IP would have, had nothing been cleaned up. */
  ghost function FullBucket(cfg: Config, ops: seq<Op>, k: nat, ip: string): Option<Bucket>
    requires k <= |ops|
  {
    BucketAfter(cfg, CallsOf(ops, k, ip), |CallsOf(ops, k, ip)|)
  }

  lemma FullBucketStep(cfg: Config, ops: seq<Op>, k: nat, ip: string)
    requires k < |ops|
    ensures FullBucket(cfg, ops, k + 1, ip) ==
      if ops[k].DoAllow? && ops[k].ip == ip then Some(After(cfg, FullBucket(cfg, ops, k, ip), ops[k].now))
      else FullBucket(cfg, ops, k, ip)
  {
    var calls := CallsOf(ops, k, ip);
    if ops[k].DoAllow? && ops[k].ip == ip {
      BucketOfPrefix(cfg, calls, [ops[k].now], |calls|);
    } else {
      assert CallsOf(ops, k + 1, ip) == calls;
    }
  }

  /** The retained bucket is the one of the full history, or it is gone and the other is full again
      from time t on. */
  ghost predicate Equivalent(cfg: Config, kept: Option<Bucket>, full: Option<Bucket>, t: real) {
    kept == full ||
    (kept.None? && full.Some? && full.value.tokens + Times(t - full.value.last, cfg.rate) >= cfg.capacity as real)
  }

  lemma EquivalentLater(cfg: Config, kept: Option<Bucket>, full: Option<Bucket>, t: real, u: real)
    requires cfg.Valid() && Equivalent(cfg, kept, full, t) && t <= u
    ensures Equivalent(cfg, kept, full, u)
    ensures Refilled(cfg, kept, u) == Refilled(cfg, full, u)
  {
    if kept != full {
      TimesSplit(full.value.last, t, u, cfg.rate);
      TimesNonNegative(u - t, cfg.rate);
    }
  }

  /** Every cleanup waits long enough for any bucket to fill up. */
  ghost predicate PatientCleanups(cfg: Config, ops: seq<Op>) {
    forall k :: 0 <= k < |ops| && ops[k].DoCleanup? ==> Times(ops[k].maxAge, cfg.rate) >= cfg.capacity as real
  }

  lemma CleanedEquivalent(cfg: Config, b: Bucket, maxAge: real, now: real)
    requires cfg.Valid() && b.tokens >= 0.0 && b.last < now - maxAge
    requires Times(maxAge, cfg.rate) >= cfg.capacity as real
    ensures Equivalent(cfg, None, Some(b), now)
  {
    TimesNonNegative(now - maxAge - b.last, cfg.rate);
    TimesSplit(b.last, now - maxAge, now, cfg.rate);
  }

  lemma {:induction false} StateIsFullHistory(cfg: Config, ops: seq<Op>, k: nat, ip: string)
    requires cfg.Valid() && Clocked(ops) && PatientCleanups(cfg, ops) && k <= |ops|
    ensures k > 0 ==> Equivalent(cfg, Find(RunUpTo(cfg, ops, k), ip), FullBucket(cfg, ops, k, ip), ops[k - 1].now)
    ensures k == 0 ==> FullBucket(cfg, ops, k, ip) == None
  {
    hide Times;
    if k == 0 {
    } else {
      StateIsFullHistory(cfg, ops, k - 1, ip);
      FullBucketStep(cfg, ops, k - 1, ip);
      var kept, full := Find(RunUpTo(cfg, ops, k - 1), ip), FullBucket(cfg, ops, k - 1, ip);
      var op := ops[k - 1];
      if k > 1 {
        EquivalentLater(cfg, kept, full, ops[k - 2].now, op.now);
      }
      if op.DoCleanup? && kept.Some? && kept.value.last < op.now - op.maxAge {
        CallsOrdered(ops, k - 1, ip);
        BucketSane(cfg, CallsOf(ops, k - 1, ip), |CallsOf(ops, k - 1, ip)|);
        CleanedEquivalent(cfg, kept.value, op.maxAge, op.now);
      }
    }
  }

  lemma FullBucketStart(cfg: Config, ops: seq<Op>, ip: string)
    ensures Find(RunUpTo(cfg, ops, 0), ip) == None == FullBucket(cfg, ops, 0, ip)
  {
  }

  /** With patient cleanups interleaved anywhere, every answer is exact with respect to the full
      history of calls of its IP. */
  lemma AnswersAreExact(cfg: Config, ops: seq<Op>, k: nat)
    requires cfg.Valid() && Clocked(ops) && PatientCleanups(cfg, ops)
    requires k < |ops| && ops[k].DoAllow?
    ensures var calls := CallsOf(ops, k + 1, ops[k].ip); var n := |CallsOf(ops, k, ops[k].ip)|;
      n < |calls| && (Answers(cfg, ops, k) <==>
        forall j: nat :: j <= n ==>
          (AdmittedIn(cfg, calls, j, n) + 1) as real <= cfg.capacity as real + Times(calls[n] - calls[j], cfg.rate))
  {
    hide Times, Refilled, Equivalent, AdmittedIn, BucketAfter, RunUpTo;
    var before, op := CallsOf(ops, k, ops[k].ip), ops[k];
    var kept, full := Find(RunUpTo(cfg, ops, k), op.ip), FullBucket(cfg, ops, k, op.ip);
    FullBucketStart(cfg, ops, op.ip);
    StateIsFullHistory(cfg, ops, k, op.ip);
    if k > 0 {
      EquivalentLater(cfg, kept, full, ops[k - 1].now, op.now);
    }
    assert Refilled(cfg, kept, op.now) == Refilled(cfg, full, op.now);
    BucketOfPrefix(cfg, before, [op.now], |before|);
    AdmittedExactly(cfg, before + [op.now], |before|);
  }

  // ---------- when exactly cleanup is invisible ----------

  /** The answer that the full history of the IP would give at position k. */
  ghost predicate FullAnswers(cfg: Config, ops: seq<Op>, k: nat)
    requires k < |ops| && ops[k].DoAllow?
  {
    Admits(cfg, FullBucket(cfg, ops, k, ops[k].ip), ops[k].now)
  }

  ghost predicate OnlyCleanups(ops: seq<Op>, maxAge: real) {
    forall k :: 0 <= k < |ops| && ops[k].DoCleanup? ==> ops[k].maxAge == maxAge
  }

  /** Some run in which cleanups with this age change the answer at position k. */
  ghost predicate Visible(cfg: Config, maxAge: real, ops: seq<Op>, k: nat) {
    && Clocked(ops) && OnlyCleanups(ops, maxAge)
    && k < |ops| && ops[k].DoAllow?
    && Answers(cfg, ops, k) != FullAnswers(cfg, ops, k)
  }

  lemma PatientIsInvisible(cfg: Config, maxAge: real, ops: seq<Op>, k: nat)
    requires cfg.Valid() && Times(maxAge, cfg.rate) >= cfg.capacity as real
    ensures !Visible(cfg, maxAge, ops, k)
  {
    hide Times;
    if Clocked(ops) && OnlyCleanups(ops, maxAge) && k < |ops| && ops[k].DoAllow? {
      StateIsFullHistory(cfg, ops, k, ops[k].ip);
      if k > 0 {
        EquivalentLater(cfg, Find(RunUpTo(cfg, ops, k), ops[k].ip), FullBucket(cfg, ops, k, ops[k].ip),
                        ops[k - 1].now, ops[k].now);
      }
    }
  }

  /** A moment at which a drained bucket is old enough to be dropped but not yet refilled. */
  lemma EarlyMoment(cfg: Config, maxAge: real) returns (t: real)
    requires cfg.Valid() && Times(maxAge, cfg.rate) < cfg.capacity as real
    ensures t >= 0.0 && t > maxAge && Times(t, cfg.rate) < cfg.capacity as real
  {
    if maxAge < 0.0 {
      return 0.0;
    }
    var full := cfg.capacity as real / cfg.rate;
    assert Times(full, cfg.rate) == cfg.capacity as real;
    assert maxAge < full by {
      if maxAge >= full {
        TimesNonNegative(maxAge - full, cfg.rate);
      }
    }
    t := (maxAge + full) / 2.0;
    assert Times(t, cfg.rate) == (Times(maxAge, cfg.rate) + Times(full, cfg.rate)) / 2.0;
  }

  /** A burst of capacity calls on an absent bucket at one moment is admitted throughout. */
  lemma {:induction false} FloodAdmitted(cfg: Config, ops: seq<Op>, start: nat, m: nat, t: real)
    requires cfg.Valid() && m <= cfg.capacity && start + m <= |ops|
    requires "" !in RunUpTo(cfg, ops, start)
    requires forall i :: start <= i < start + m ==> ops[i] == DoAllow("", t)
    ensures Find(RunUpTo(cfg, ops, start + m), "") ==
            if m == 0 then None else Some(Bucket((cfg.capacity - m) as real, t))
    ensures forall i: nat :: start <= i < start + m ==> Answers(cfg, ops, i)
  {
    if m == 0 {
    } else {
      FloodAdmitted(cfg, ops, start, m - 1, t);
      TimesSplit(t, t, t, cfg.rate);
      assert Answers(cfg, ops, start + m - 1);
    }
  }

  lemma {:induction false} AdmittedInPrefix(cfg: Config, a: seq<real>, b: seq<real>, j: nat, k: nat)
    requires k <= |a|
    ensures AdmittedIn(cfg, a + b, j, k) == AdmittedIn(cfg, a, j, k)
  {
    if j >= k {
    } else {
      AdmittedInPrefix(cfg, a, b, j, k - 1);
      BucketOfPrefix(cfg, a, b, k - 1);
    }
  }

  lemma LastAdmitted(cfg: Config, before: seq<real>, now: real)
    ensures Admitted(cfg, before + [now], |before|) <==> Admits(cfg, BucketAfter(cfg, before, |before|), now)
  {
    BucketOfPrefix(cfg, before, [now], |before|);
  }

  lemma NoneAdmitted(cfg: Config)
    ensures AdmittedIn(cfg, [], 0, 0) == 0
  {
  }

  lemma AdmittedPush(cfg: Config, before: seq<real>, now: real)
    ensures AdmittedIn(cfg, before + [now], 0, |before| + 1) ==
            AdmittedIn(cfg, before, 0, |before|) +
            if Admits(cfg, BucketAfter(cfg, before, |before|), now) then 1 else 0
  {
    hide Admits;
    AdmittedInPrefix(cfg, before, [now], 0, |before|);
    LastAdmitted(cfg, before, now);
  }

  /** If the full history admits every call of a run, its admissions are as many as its calls. */
  lemma {:induction false} AllAdmitted(cfg: Config, ops: seq<Op>, k: nat)
    requires k <= |ops| && forall i: nat :: i < k && ops[i].DoAllow? ==> ops[i].ip == "" && FullAnswers(cfg, ops, i)
    ensures var calls := CallsOf(ops, k, ""); AdmittedIn(cfg, calls, 0, |calls|) == |calls|
  {
    hide Times, Refilled, Admits, BucketAfter, AdmittedIn;
    if k == 0 {
      NoneAdmitted(cfg);
    } else {
      AllAdmitted(cfg, ops, k - 1);
      var before, op := CallsOf(ops, k - 1, ""), ops[k - 1];
      if op.DoAllow? {
        assert FullAnswers(cfg, ops, k - 1);
        AdmittedPush(cfg, before, op.now);
        assert CallsOf(ops, k, "") == before + [op.now];
      } else {
        assert CallsOf(ops, k, "") == before;
      }
    }
  }

  lemma {:induction false} FloodCalls(ops: seq<Op>, start: nat, m: nat, t: real)
    requires start + m <= |ops| && forall i :: start <= i < start + m ==> ops[i] == DoAllow("", t)
    ensures CallsOf(ops, start + m, "") == CallsOf(ops, start, "") + seq(m, _ => t)
  {
    if m == 0 {
    } else {
      FloodCalls(ops, start, m - 1, t);
    }
  }

  /** Drain the bucket at time 0, clean up at time t, and drain it again. */
  function DrainTwice(n: nat, maxAge: real, t: real): (ops: seq<Op>)
    ensures |ops| == 2 * n + 1
    ensures forall k :: 0 <= k < |ops| ==>
      ops[k] == if k < n then DoAllow("", 0.0) else if k == n then DoCleanup(maxAge, t) else DoAllow("", t)
  {
    seq(n, _ => DoAllow("", 0.0)) + [DoCleanup(maxAge, t)] + seq(n, _ => DoAllow("", t))
  }

  /** With the cleanup, every call passes. */
  lemma DrainTwiceAdmitted(cfg: Config, maxAge: real, t: real, k: nat)
    requires cfg.Valid() && t > maxAge && k < 2 * cfg.capacity + 1 && k != cfg.capacity
    ensures Answers(cfg, DrainTwice(cfg.capacity, maxAge, t), k)
  {
    var n := cfg.capacity;
    var ops := DrainTwice(n, maxAge, t);
    FloodAdmitted(cfg, ops, 0, n, 0.0);
    FloodAdmitted(cfg, ops, n + 1, n, t);
  }

  lemma DrainTwiceCalls(n: nat, maxAge: real, t: real)
    ensures CallsOf(DrainTwice(n, maxAge, t), 2 * n + 1, "") == seq(n, _ => 0.0) + seq(n, _ => t)
  {
    var ops := DrainTwice(n, maxAge, t);
    FloodCalls(ops, 0, n, 0.0);
    assert CallsOf(ops, n + 1, "") == CallsOf(ops, n, "");
    FloodCalls(ops, n + 1, n, t);
  }

  /** The full history rejects some call. */
  lemma DrainTwiceRejected(cfg: Config, maxAge: real, t: real) returns (k: nat)
    requires cfg.Valid() && t >= 0.0 && Times(t, cfg.rate) < cfg.capacity as real
    ensures k < 2 * cfg.capacity + 1 && k != cfg.capacity && !FullAnswers(cfg, DrainTwice(cfg.capacity, maxAge, t), k)
  {
    hide Times, RunUpTo, AdmittedIn, BucketAfter, FullAnswers, CallsOf;
    var n := cfg.capacity;
    var ops := DrainTwice(n, maxAge, t);
    if forall k: nat :: k < |ops| && ops[k].DoAllow? ==> FullAnswers(cfg, ops, k) {
      AllAdmitted(cfg, ops, |ops|);
      DrainTwiceCalls(n, maxAge, t);
      var calls := CallsOf(ops, |ops|, "");
      assert |calls| == 2 * n && calls[0] == 0.0 && calls[2 * n - 1] == t;
      SpanBound(cfg, calls, 0, 2 * n - 1);
      assert false;
    }
    k :| k < |ops| && ops[k].DoAllow? && !FullAnswers(cfg, ops, k);
  }

  /** Draining the bucket twice passes with the cleanup, which the full history cannot have allowed. */
  lemma ImpatientIsVisible(cfg: Config, maxAge: real)
    requires cfg.Valid() && Times(maxAge, cfg.rate) < cfg.capacity as real
    ensures exists ops, k :: Visible(cfg, maxAge, ops, k)
  {
    hide Times, RunUpTo, Answers, FullAnswers;
    var t := EarlyMoment(cfg, maxAge);
    var k := DrainTwiceRejected(cfg, maxAge, t);
    DrainTwiceAdmitted(cfg, maxAge, t, k);
    assert Visible(cfg, maxAge, DrainTwice(cfg.capacity, maxAge, t), k);
  }

  /** Cleanup is invisible on every run if and only if its age lets an empty bucket refill. */
  lemma CleanupInvisibleExactly(cfg: Config, maxAge: real)
    requires cfg.Valid()
    ensures (forall ops, k :: !Visible(cfg, maxAge, ops, k)) <==> Times(maxAge, cfg.rate) >= cfg.capacity as real
  {
    if Times(maxAge, cfg.rate) >= cfg.capacity as real {
      forall ops, k ensures !Visible(cfg, maxAge, ops, k) {
        PatientIsInvisible(cfg, maxAge, ops, k);
      }
    } else {
      ImpatientIsVisible(cfg, maxAge);
    }
  }

  // ---------- the limiter object ----------

  class TokenBucket {
    const capacity: nat
    const rate: real
    var tokens: real
    var lastRefill: real

    constructor (capacity: nat, rate: real, now: real)
      ensures this.capacity == capacity && this.rate == rate && tokens == capacity as real && lastRefill == now
    {
      this.capacity, this.rate := capacity, rate;
      tokens, lastRefill := capacity as real, now;
    }

    /** The refill for the elapsed time, and the attempt to consume one token. */
    method Take(now: real) returns (allowed: bool)
      modifies `tokens, `lastRefill
      ensures var cfg, before := Config(capacity, rate), Some(Bucket(old(tokens), old(lastRefill)));
        allowed == Admits(cfg, before, now) && Bucket(tokens, lastRefill) == After(cfg, before, now)
    {
      var elapsed := now - lastRefill;
      tokens := tokens + Times(elapsed, rate);
      if tokens > capacity as real {
        tokens := capacity as real;
      }
      lastRefill := now;
      allowed := tokens >= 1.0;
      if allowed {
        tokens := tokens - 1.0;
      }
    }
  }

  /** A bucket created moments ago still counts as absent: it is full. */
  lemma FreshIsFull(cfg: Config, created: real, now: real)
    requires cfg.Valid() && created <= now
    ensures var full := Some(Bucket(cfg.capacity as real, created));
      && Refilled(cfg, full, now) == Refilled(cfg, None, now)
      && Admits(cfg, full, now) == Admits(cfg, None, now)
      && After(cfg, full, now) == After(cfg, None, now)
  {
    TimesNonNegative(now - created, cfg.rate);
  }

  /** No two addresses share a bucket. */
  ghost predicate Unshared(buckets: map<string, TokenBucket>) {
    forall ip, other :: ip in buckets && other in buckets && ip != other ==> buckets[ip] != buckets[other]
  }

  lemma OthersDiffer(buckets: map<string, TokenBucket>, ip: string)
    requires Unshared(buckets) && ip in buckets
    ensures forall other :: other in buckets && other != ip ==> buckets[other] != buckets[ip]
  {
  }

  lemma UnsharedPart(part: map<string, TokenBucket>, buckets: map<string, TokenBucket>)
    requires Unshared(buckets) && part.Keys <= buckets.Keys && forall ip :: ip in part ==> part[ip] == buckets[ip]
    ensures Unshared(part) && part.Values <= buckets.Values
  {
  }

  class RateLimiter {
    const capacity: nat
    const rate: real
    var buckets: map<string, TokenBucket>
    ghost var clock: real  // no later than any coming reading of the clock

    ghost function Cfg(): Config {
      Config(capacity, rate)
    }

    /** The value-level state that the bucket objects represent. */
    ghost function Abs(): State
      reads this, buckets.Values
    {
      map ip | ip in buckets :: Bucket(buckets[ip].tokens, buckets[ip].lastRefill)
    }

    ghost predicate Valid()
      reads this, buckets.Values
    {
      && Cfg().Valid()
      && (forall ip :: ip in buckets ==>
            buckets[ip].capacity == capacity && buckets[ip].rate == rate && buckets[ip].lastRefill <= clock)
      && Unshared(buckets)
    }

    constructor (capacity: nat, rate: real)
      requires Config(capacity, rate).Valid()
      ensures Valid() && Abs() == map[] && Cfg() == Config(capacity, rate)
    {
      this.capacity, this.rate, buckets := capacity, rate, map[];
    }

    /** An address without a bucket gets a full one, which behaves like none at all. */
    method EnsureBucket(ip: string, created: real, ghost now: real)
      requires Valid() && clock <= created <= now
      modifies this
      ensures Valid() && clock == created && ip in buckets
      ensures fresh(buckets.Values - old(buckets.Values)) && Abs() == old(Abs())[ip := Abs()[ip]]
      ensures var kept, full := Find(old(Abs()), ip), Some(Abs()[ip]);
        Admits(Cfg(), full, now) == Admits(Cfg(), kept, now) && After(Cfg(), full, now) == After(Cfg(), kept, now)
    {
      hide Times, Refilled, Admits, After;
      if ip !in buckets {
        var bucket := new TokenBucket(capacity, rate, created);
        buckets := buckets[ip := bucket];
        FreshIsFull(Cfg(), created, now);
      }
      clock := created;
    }

    /** The refill and the attempt on an existing bucket; no other bucket changes. */
    method TakeFrom(ip: string, now: real) returns (allowed: bool)
      requires Valid() && clock <= now && ip in buckets
      modifies this`clock, buckets[ip]
      ensures Valid() && buckets == old(buckets) && clock == now
      ensures allowed == Admits(Cfg(), Some(old(Abs())[ip]), now)
      ensures Abs() == old(Abs())[ip := After(Cfg(), Some(old(Abs())[ip]), now)]
    {
      hide Times, Refilled, Admits, After, Unshared;
      OthersDiffer(buckets, ip);
      allowed := buckets[ip].Take(now);
      clock := now;
    }

    /** Allow. The clock is read once when a bucket is created and once for the refill. */
    method Allow(ip: string, created: real, now: real) returns (allowed: bool)
      requires Valid() && clock <= created <= now
      modifies this, buckets.Values
      ensures Valid() && fresh(buckets.Values - old(buckets.Values))
      ensures allowed == Admits(Cfg(), Find(old(Abs()), ip), now)
      ensures Abs() == Step(Cfg(), old(Abs()), DoAllow(ip, now)) && clock == now
    {
      hide Times, Refilled, Admits, After, Unshared;
      EnsureBucket(ip, created, now);
      allowed := TakeFrom(ip, now);
    }

    method Cleanup(maxAge: real, now: real)
      requires Valid() && clock <= now
      modifies this
      ensures Valid() && buckets.Values <= old(buckets.Values)
      ensures Abs() == Step(Cfg(), old(Abs()), DoCleanup(maxAge, now)) && clock == now
    {
      hide Unshared;
      var cutoff := now - maxAge;
      var ips := buckets.Keys;
      ghost var before := buckets;
      clock := now;
      while ips != {}
        invariant clock == now && ips <= buckets.Keys <= before.Keys
        invariant forall ip :: ip in buckets ==> buckets[ip] == before[ip]
        invariant forall ip :: ip in before && ip !in ips ==> (ip in buckets <==> !(before[ip].lastRefill < cutoff))
        modifies `buckets
      {
        var ip :| ip in ips;
        if buckets[ip].lastRefill < cutoff {
          buckets := buckets - {ip};
        }
        ips := ips - {ip};
      }
      UnsharedPart(buckets, before);
    }
  }
}
