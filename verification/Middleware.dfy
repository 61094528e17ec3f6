/** core/inference/middleware.go: the per-IP windows behind the live ML features. Entropy is a
    parameter: some function of how often each endpoint was requested. */
module Middleware {
  import opened Common
  import opened Windows
  import LinearAlgebra

  const WINDOW_10S := 10_000_000_000
  const WINDOW_60S := 60_000_000_000

  datatype Outcome = Outcome(status: int, latencyMs: real)

  type Requests = seq<Stamped<string>>
  type Responses = seq<Stamped<Outcome>>
  type Entropy = map<string, nat> -> real

  // ---------- the features of two logs at one moment ----------

  function Histogram(requests: Requests): map<string, nat> {
    if requests == [] then map[]
    else
      var before, e := Histogram(requests[..|requests| - 1]), requests[|requests| - 1].item;
      before[e := 1 + if e in before then before[e] else 0]
  }

  function Errors(responses: Responses): nat {
    if responses == [] then 0
    else Errors(responses[..|responses| - 1]) + if responses[|responses| - 1].item.status >= 400 then 1 else 0
  }

  function TotalLatency(responses: Responses): real {
    if responses == [] then 0.0
    else TotalLatency(responses[..|responses| - 1]) + responses[|responses| - 1].item.latencyMs
  }

  /** The running maximum, which starts at zero. */
  function MaxLatency(responses: Responses): real {
    if responses == [] then 0.0
    else
      var before, l := MaxLatency(responses[..|responses| - 1]), responses[|responses| - 1].item.latencyMs;
      if l > before then l else before
  }

  function Square(x: real): real {
    x * x
  }

  function SquaredDeviations(responses: Responses, avg: real): real {
    if responses == [] then 0.0
    else SquaredDeviations(responses[..|responses| - 1], avg) + Square(responses[|responses| - 1].item.latencyMs - avg)
  }

  function Average(responses: Responses): real
    requires responses != []
  {
    TotalLatency(responses) / |responses| as real
  }

  datatype Features = Features(
    reqs10s: nat, reqs60s: nat, entropy: real, latencySpike: real, errorRate: real, variance: real)

  /** The features of one IP at time now, from its request log and its response log. */
  function FeaturesAt(requests: Requests, responses: Responses, now: int, entropy: Entropy): Features {
    var window, stats := Since(requests, now - WINDOW_60S), Since(responses, now - WINDOW_60S);
    Features(
      |Since(requests, now - WINDOW_10S)|,
      |window|,
      entropy(Histogram(window)),
      if stats != [] && MaxLatency(stats) > Average(stats) * 1.5 && MaxLatency(stats) > 100.0 then 1.0 else 0.0,
      if stats != [] then Errors(stats) as real / |stats| as real else 0.0,
      if |stats| > 1 then SquaredDeviations(stats, Average(stats)) / (|stats| - 1) as real else 0.0)
  }

  lemma {:induction false} ErrorsBounded(responses: Responses)
    ensures Errors(responses) <= |responses|
  {
    if responses == [] {
    } else {
      ErrorsBounded(responses[..|responses| - 1]);
    }
  }

  lemma SquareNonNegative(x: real)
    ensures Square(x) >= 0.0
  {
  }

  lemma {:induction false} DeviationsNonNegative(responses: Responses, avg: real)
    ensures SquaredDeviations(responses, avg) >= 0.0
  {
    if responses == [] {
    } else {
      DeviationsNonNegative(responses[..|responses| - 1], avg);
      SquareNonNegative(responses[|responses| - 1].item.latencyMs - avg);
    }
  }

  lemma RatioBounds(a: nat, b: nat)
    requires a <= b && b > 0
    ensures 0.0 <= a as real / b as real <= 1.0
  {
  }

  lemma QuotientNonNegative(a: real, b: nat)
    requires a >= 0.0 && b > 0
    ensures a / b as real >= 0.0
  {
  }

  /** Counts nest, the error rate is a ratio, and the variance is not negative. */
  lemma FeaturesInRange(requests: Requests, responses: Responses, now: int, entropy: Entropy)
    ensures var f := FeaturesAt(requests, responses, now, entropy);
      && f.reqs10s <= f.reqs60s
      && 0.0 <= f.errorRate <= 1.0
      && f.variance >= 0.0
      && (f.latencySpike == 0.0 || f.latencySpike == 1.0)
  {
    var stats := Since(responses, now - WINDOW_60S);
    SinceTwice(requests, now - WINDOW_60S, now - WINDOW_10S);
    ErrorsBounded(stats);
    if stats != [] {
      RatioBounds(Errors(stats), |stats|);
    }
    if |stats| > 1 {
      DeviationsNonNegative(stats, Average(stats));
      QuotientNonNegative(SquaredDeviations(stats, Average(stats)), |stats| - 1);
    }
  }

  // ---------- what the features mean ----------

  /** The positions of a log after the cutoff. */
  ghost function After<T>(log: seq<Stamped<T>>, cutoff: int): set<int> {
    set i | 0 <= i < |log| && log[i].time > cutoff
  }

  ghost function FailuresAfter(responses: Responses, cutoff: int): set<int> {
    set i | 0 <= i < |responses| && responses[i].time > cutoff && responses[i].item.status >= 400
  }

  ghost function CallsAfter(requests: Requests, cutoff: int, endpoint: string): set<int> {
    set i | 0 <= i < |requests| && requests[i].time > cutoff && requests[i].item == endpoint
  }

  lemma {:induction false} ErrorsAreFailures(responses: Responses, cutoff: int)
    ensures Errors(Since(responses, cutoff)) == |FailuresAfter(responses, cutoff)|
  {
    if responses == [] {
    } else {
      var front, last := responses[..|responses| - 1], responses[|responses| - 1];
      ErrorsAreFailures(front, cutoff);
      assert FailuresAfter(responses, cutoff) == FailuresAfter(front, cutoff) +
        if last.time > cutoff && last.item.status >= 400 then {|front|} else {};
      assert (Since(front, cutoff) + [last])[..|Since(front, cutoff)|] == Since(front, cutoff);
    }
  }

  /** The histogram of a window counts, for every endpoint, its calls in the window. */
  lemma {:induction false} HistogramCounts(requests: Requests, cutoff: int, endpoint: string)
    ensures var h := Histogram(Since(requests, cutoff));
      (if endpoint in h then h[endpoint] else 0) == |CallsAfter(requests, cutoff, endpoint)|
    ensures var h := Histogram(Since(requests, cutoff)); endpoint in h ==> h[endpoint] > 0
  {
    if requests == [] {
    } else {
      var front, last := requests[..|requests| - 1], requests[|requests| - 1];
      HistogramCounts(front, cutoff, endpoint);
      assert CallsAfter(requests, cutoff, endpoint) == CallsAfter(front, cutoff, endpoint) +
        if last.time > cutoff && last.item == endpoint then {|front|} else {};
      assert (Since(front, cutoff) + [last])[..|Since(front, cutoff)|] == Since(front, cutoff);
    }
  }

  /** The latencies of the responses after the cutoff, and zeros for the others. */
  ghost predicate LatenciesIn(responses: Responses, cutoff: int, values: seq<real>) {
    |values| == |responses| && forall i :: 0 <= i < |responses| ==>
      values[i] == if responses[i].time > cutoff then responses[i].item.latencyMs else 0.0
  }

  /** The squares of their distances from avg, and zeros for the others. */
  ghost predicate DeviationsIn(responses: Responses, cutoff: int, avg: real, values: seq<real>) {
    |values| == |responses| && forall i :: 0 <= i < |responses| ==>
      var d := responses[i].item.latencyMs - avg;
      values[i] == if responses[i].time > cutoff then Times(d, d) else 0.0
  }

  lemma {:induction false} LatenciesSum(responses: Responses, cutoff: int, values: seq<real>)
    requires LatenciesIn(responses, cutoff, values)
    ensures TotalLatency(Since(responses, cutoff)) == LinearAlgebra.Sum(values)
  {
    if responses == [] {
    } else {
      var front, last, n := responses[..|responses| - 1], responses[|responses| - 1], |responses| - 1;
      LatenciesSum(front, cutoff, values[..n]);
      SumPush(values);
      assert (Since(front, cutoff) + [last])[..|Since(front, cutoff)|] == Since(front, cutoff);
    }
  }

  lemma SquareIsTimes(x: real)
    ensures Square(x) == Times(x, x)
  {
  }

  lemma DeviationsPush(responses: Responses, r: Stamped<Outcome>, avg: real)
    ensures SquaredDeviations(responses + [r], avg) ==
            SquaredDeviations(responses, avg) + Square(r.item.latencyMs - avg)
  {
    hide Square;
    assert (responses + [r])[..|responses|] == responses;
  }

  lemma SumPush(values: seq<real>)
    requires values != []
    ensures LinearAlgebra.Sum(values) == LinearAlgebra.Sum(values[..|values| - 1]) + values[|values| - 1]
  {
    var n := |values| - 1;
    LinearAlgebra.SumAppend(values[..n], [values[n]]);
    assert values == values[..n] + [values[n]];
  }

  lemma NoDeviations(cutoff: int, avg: real)
    ensures SquaredDeviations(Since([], cutoff), avg) == 0.0 == LinearAlgebra.Sum([])
  {
  }

  lemma DeviationsFront(responses: Responses, cutoff: int, avg: real, values: seq<real>)
    requires responses != [] && DeviationsIn(responses, cutoff, avg, values)
    ensures var n := |responses| - 1; var last := responses[n];
      && |values| == n + 1 && DeviationsIn(responses[..n], cutoff, avg, values[..n])
      && values[n] == if last.time > cutoff then Square(last.item.latencyMs - avg) else 0.0
  {
    hide Times, Square;
    SquareIsTimes(responses[|responses| - 1].item.latencyMs - avg);
  }

  lemma {:induction false} DeviationsSum(responses: Responses, cutoff: int, avg: real, values: seq<real>)
    requires DeviationsIn(responses, cutoff, avg, values)
    ensures SquaredDeviations(Since(responses, cutoff), avg) == LinearAlgebra.Sum(values)
  {
    hide Times, Square, LinearAlgebra.Sum, Since, SquaredDeviations;
    if responses == [] {
      NoDeviations(cutoff, avg);
    } else {
      var n := |responses| - 1;
      var front, last := responses[..n], responses[n];
      DeviationsFront(responses, cutoff, avg, values);
      DeviationsSum(front, cutoff, avg, values[..n]);
      SumPush(values);
      assert responses == front + [last];
      SinceAppend(front, last, cutoff);
      DeviationsPush(Since(front, cutoff), last, avg);
    }
  }

  /** The running maximum exceeds a bound that is not negative if and only if some latency does. */
  lemma {:induction false} MaxLatencyAbove(responses: Responses, cutoff: int, bound: real)
    requires bound >= 0.0
    ensures MaxLatency(Since(responses, cutoff)) > bound <==>
      exists i :: 0 <= i < |responses| && responses[i].time > cutoff && responses[i].item.latencyMs > bound
  {
    if responses == [] {
    } else {
      var front, last := responses[..|responses| - 1], responses[|responses| - 1];
      MaxLatencyAbove(front, cutoff, bound);
      assert (Since(front, cutoff) + [last])[..|Since(front, cutoff)|] == Since(front, cutoff);
      forall i | 0 <= i < |responses|
        ensures responses[i] == if i < |front| then front[i] else last {}
    }
  }

  /** h holds, for every endpoint called after the cutoff and for no other, how often it was. */
  ghost predicate CountsCalls(h: map<string, nat>, requests: Requests, cutoff: int) {
    forall e :: (e in h <==> CallsAfter(requests, cutoff, e) != {}) &&
                (e in h ==> h[e] == |CallsAfter(requests, cutoff, e)|)
  }

  /** Some latency after the cutoff is above 100 ms and above one and a half times avg. */
  ghost predicate Spikes(responses: Responses, cutoff: int, avg: real) {
    exists i :: 0 <= i < |responses| && responses[i].time > cutoff &&
                responses[i].item.latencyMs > 100.0 && responses[i].item.latencyMs > 1.5 * avg
  }

  lemma DivisionTimes(a: real, b: nat)
    requires b > 0
    ensures Times(a / b as real, b as real) == a
  {
  }

  lemma DivisionIs(a: real, b: nat, q: real)
    requires b > 0 && Times(q, b as real) == a
    ensures a / b as real == q
  {
  }

  /** The six features in terms of the positions of the two logs: with n responses in the last 60 seconds, whose
      latencies add up to n * avg. */
  lemma FeaturesMean(requests: Requests, responses: Responses, now: int, entropy: Entropy,
        latencies: seq<real>, avg: real, deviations: seq<real>)
    requires LatenciesIn(responses, now - 60_000_000_000, latencies)
    requires DeviationsIn(responses, now - 60_000_000_000, avg, deviations)
    requires Times(avg, |After(responses, now - 60_000_000_000)| as real) == LinearAlgebra.Sum(latencies)
    ensures var f, c := FeaturesAt(requests, responses, now, entropy), now - 60_000_000_000;
      var n := |After(responses, c)|;
      && f.reqs10s == |After(requests, now - 10_000_000_000)| && f.reqs60s == |After(requests, c)|
      && (exists h :: CountsCalls(h, requests, c) && f.entropy == entropy(h))
      && (if n == 0 then f.errorRate == 0.0 else Times(f.errorRate, n as real) == |FailuresAfter(responses, c)| as real)
      && f.latencySpike == (if Spikes(responses, c, avg) then 1.0 else 0.0)
      && (if n <= 1 then f.variance == 0.0
          else Times(f.variance, (n - 1) as real) == LinearAlgebra.Sum(deviations))
  {
    hide Times, LinearAlgebra.Sum, Histogram, Errors, SquaredDeviations, TotalLatency, MaxLatency, Since;
    hide LatenciesIn, DeviationsIn;
    var c := now - 60_000_000_000;
    var window, stats := Since(requests, c), Since(responses, c);
    SinceCount(requests, now - 10_000_000_000);
    SinceCount(requests, c);
    SinceCount(responses, c);
    assert CountsCalls(Histogram(window), requests, c) by {
      forall e ensures var h := Histogram(window);
        (e in h <==> CallsAfter(requests, c, e) != {}) && (e in h ==> h[e] == |CallsAfter(requests, c, e)|)
      {
        HistogramCounts(requests, c, e);
      }
    }
    ErrorsAreFailures(responses, c);
    LatenciesSum(responses, c, latencies);
    if stats != [] {
      DivisionIs(TotalLatency(stats), |stats|, avg);
      DivisionTimes(Errors(stats) as real, |stats|);
      SpikeIs(responses, c, avg);
    } else {
      forall i | 0 <= i < |responses| ensures responses[i].time <= c {
        assert i !in After(responses, c);
      }
    }
    DeviationsSum(responses, c, avg, deviations);
    if |stats| > 1 {
      DivisionTimes(SquaredDeviations(stats, avg), |stats| - 1);
    }
  }

  lemma SpikeIs(responses: Responses, c: int, avg: real)
    ensures var m := MaxLatency(Since(responses, c)); m > avg * 1.5 && m > 100.0 <==> Spikes(responses, c, avg)
  {
    MaxLatencyAbove(responses, c, if 1.5 * avg > 100.0 then 1.5 * avg else 100.0);
  }

  /** Features only look at the last 60 seconds. */
  lemma FeaturesAgree(kept: Requests, full: Requests, keptStats: Responses, fullStats: Responses, now: int,
        entropy: Entropy)
    requires Agree(kept, full, now - WINDOW_60S) && Agree(keptStats, fullStats, now - WINDOW_60S)
    ensures FeaturesAt(kept, keptStats, now, entropy) == FeaturesAt(full, fullStats, now, entropy)
  {
    AgreeLater(kept, full, now - WINDOW_60S, now - WINDOW_10S);
  }

  // ---------- operations ----------

  datatype State = State(requests: map<string, Requests>, stats: map<string, Responses>)

  function Put<T>(m: map<string, seq<Stamped<T>>>, ip: string, log: seq<Stamped<T>>): map<string, seq<Stamped<T>>> {
    if log == [] then m - {ip} else m[ip := log]
  }

  function PrunedFor<T>(m: map<string, seq<Stamped<T>>>, ip: string, now: int): map<string, seq<Stamped<T>>> {
    Put(m, ip, Since(Kept(m, ip), now - WINDOW_60S))
  }

  function PrunedAll<T>(m: map<string, seq<Stamped<T>>>, now: int): map<string, seq<Stamped<T>>> {
    map ip | ip in m && Since(m[ip], now - WINDOW_60S) != [] :: Since(m[ip], now - WINDOW_60S)
  }

  datatype Op =
    | Request(ip: string, endpoint: string, now: int)
    | Response(ip: string, outcome: Outcome, now: int)
    | PruneAll(now: int)

  function Step(s: State, op: Op): State {
    match op
    case Request(ip, endpoint, now) =>
      var appended := s.requests[ip := Kept(s.requests, ip) + [Stamped(now, endpoint)]];
      State(PrunedFor(appended, ip, now), PrunedFor(s.stats, ip, now))
    case Response(ip, outcome, now) =>
      var appended := s.stats[ip := Kept(s.stats, ip) + [Stamped(now, outcome)]];
      State(PrunedFor(s.requests, ip, now), PrunedFor(appended, ip, now))
    case PruneAll(now) =>
      State(PrunedAll(s.requests, now), PrunedAll(s.stats, now))
  }

  ghost function RunUpTo(ops: seq<Op>, k: nat): State
    requires k <= |ops|
  {
    if k == 0 then State(map[], map[]) else Step(RunUpTo(ops, k - 1), ops[k - 1])
  }

  /** All requests ever recorded for an IP. */
  ghost function AllRequests(ops: seq<Op>, k: nat, ip: string): Requests
    requires k <= |ops|
  {
    if k == 0 then []
    else if ops[k - 1].Request? && ops[k - 1].ip == ip then
      AllRequests(ops, k - 1, ip) + [Stamped(ops[k - 1].now, ops[k - 1].endpoint)]
    else AllRequests(ops, k - 1, ip)
  }

  /** All backend responses ever recorded for an IP. */
  ghost function AllResponses(ops: seq<Op>, k: nat, ip: string): Responses
    requires k <= |ops|
  {
    if k == 0 then []
    else if ops[k - 1].Response? && ops[k - 1].ip == ip then
      AllResponses(ops, k - 1, ip) + [Stamped(ops[k - 1].now, ops[k - 1].outcome)]
    else AllResponses(ops, k - 1, ip)
  }

  ghost predicate Clocked(ops: seq<Op>) {
    forall i, j :: 0 <= i <= j < |ops| ==> ops[i].now <= ops[j].now
  }

  // ---------- forgetting is invisible ----------

  lemma PruneOneAgrees<T>(m: map<string, seq<Stamped<T>>>, pruned: string, ip: string, full: seq<Stamped<T>>, now: int)
    requires Agree(Kept(m, ip), full, now - WINDOW_60S)
    ensures Agree(Kept(PrunedFor(m, pruned, now), ip), full, now - WINDOW_60S)
  {
    if pruned == ip {
      AgreePruned(Kept(m, ip), full, now - WINDOW_60S);
    }
  }

  lemma PruneAllAgrees<T>(m: map<string, seq<Stamped<T>>>, ip: string, full: seq<Stamped<T>>, now: int)
    requires Agree(Kept(m, ip), full, now - WINDOW_60S)
    ensures Agree(Kept(PrunedAll(m, now), ip), full, now - WINDOW_60S)
  {
    AgreePruned(Kept(m, ip), full, now - WINDOW_60S);
    SinceNothing<T>([], now - WINDOW_60S);
  }

  /** After every operation the retained logs and the full logs agree on the last 60 seconds. */
  lemma {:induction false} WindowsFaithful(ops: seq<Op>, k: nat, ip: string)
    requires Clocked(ops) && 0 < k <= |ops|
    ensures Agree(Kept(RunUpTo(ops, k).requests, ip), AllRequests(ops, k, ip), ops[k - 1].now - WINDOW_60S)
    ensures Agree(Kept(RunUpTo(ops, k).stats, ip), AllResponses(ops, k, ip), ops[k - 1].now - WINDOW_60S)
  {
    hide Since, Agree, PrunedFor, PrunedAll;
    var s, op := RunUpTo(ops, k - 1), ops[k - 1];
    var requests, responses := AllRequests(ops, k - 1, ip), AllResponses(ops, k - 1, ip);
    var cutoff := op.now - WINDOW_60S;
    if k == 1 {
      AgreeSelf<string>([], cutoff);
      AgreeSelf<Outcome>([], cutoff);
    } else {
      WindowsFaithful(ops, k - 1, ip);
      AgreeLater(Kept(s.requests, ip), requests, ops[k - 2].now - WINDOW_60S, cutoff);
      AgreeLater(Kept(s.stats, ip), responses, ops[k - 2].now - WINDOW_60S, cutoff);
    }
    match op {
      case Request(who, endpoint, now) =>
        var x := Stamped(now, endpoint);
        AgreeAppend(Kept(s.requests, ip), requests, x, cutoff);
        PruneOneAgrees(s.requests[who := Kept(s.requests, who) + [x]], who, ip, AllRequests(ops, k, ip), now);
        PruneOneAgrees(s.stats, who, ip, responses, now);
      case Response(who, outcome, now) =>
        var x := Stamped(now, outcome);
        AgreeAppend(Kept(s.stats, ip), responses, x, cutoff);
        PruneOneAgrees(s.stats[who := Kept(s.stats, who) + [x]], who, ip, AllResponses(ops, k, ip), now);
        PruneOneAgrees(s.requests, who, ip, requests, now);
      case PruneAll(now) =>
        PruneAllAgrees(s.requests, ip, requests, now);
        PruneAllAgrees(s.stats, ip, responses, now);
    }
  }

  lemma AgreeSelf<T>(log: seq<Stamped<T>>, cutoff: int)
    ensures Agree(log, log, cutoff)
  {
  }

  /** The features that recordRequest computes at position k of a run, after its own update. */
  ghost function FeaturesAfter(ops: seq<Op>, k: nat, entropy: Entropy): Features
    requires k < |ops| && ops[k].Request?
  {
    var after := RunUpTo(ops, k + 1);
    FeaturesAt(Kept(after.requests, ops[k].ip), Kept(after.stats, ops[k].ip), ops[k].now, entropy)
  }

  /** ML features ignore forgetting: on every run they are the features of the full, never pruned
      logs of the IP. */
  lemma FeaturesIgnoreForgetting(ops: seq<Op>, k: nat, entropy: Entropy)
    requires Clocked(ops) && k < |ops| && ops[k].Request?
    ensures FeaturesAfter(ops, k, entropy) ==
      FeaturesAt(AllRequests(ops, k + 1, ops[k].ip), AllResponses(ops, k + 1, ops[k].ip), ops[k].now, entropy)
  {
    hide Agree, FeaturesAt, Step, AllRequests, AllResponses;
    var after, ip := RunUpTo(ops, k + 1), ops[k].ip;
    WindowsFaithful(ops, k + 1, ip);
    FeaturesAgree(Kept(after.requests, ip), AllRequests(ops, k + 1, ip),
                  Kept(after.stats, ip), AllResponses(ops, k + 1, ip), ops[k].now, entropy);
  }

  /** The requests of an IP after the cutoff, among the first k operations. */
  ghost function RequestOps(ops: seq<Op>, k: nat, ip: string, cutoff: int): set<int>
    requires k <= |ops|
  {
    set i | 0 <= i < k && ops[i].Request? && ops[i].ip == ip && ops[i].now > cutoff
  }

  /** Its backend responses after the cutoff. */
  ghost function ResponseOps(ops: seq<Op>, k: nat, ip: string, cutoff: int): set<int>
    requires k <= |ops|
  {
    set i | 0 <= i < k && ops[i].Response? && ops[i].ip == ip && ops[i].now > cutoff
  }

  /** Those of them that report an error. */
  ghost function ErrorOps(ops: seq<Op>, k: nat, ip: string, cutoff: int): set<int>
    requires k <= |ops|
  {
    set i | 0 <= i < k && ops[i].Response? && ops[i].ip == ip && ops[i].now > cutoff && ops[i].outcome.status >= 400
  }

  lemma {:induction false} RequestsCounted(ops: seq<Op>, k: nat, ip: string, cutoff: int)
    requires k <= |ops|
    ensures |Since(AllRequests(ops, k, ip), cutoff)| == |RequestOps(ops, k, ip, cutoff)|
  {
    hide Since;
    if k == 0 {
      SinceNothing<string>([], cutoff);
    } else {
      var op := ops[k - 1];
      RequestsCounted(ops, k - 1, ip, cutoff);
      assert RequestOps(ops, k, ip, cutoff) == RequestOps(ops, k - 1, ip, cutoff) +
        if op.Request? && op.ip == ip && op.now > cutoff then {k - 1} else {};
      if op.Request? {
        SinceAppend(AllRequests(ops, k - 1, ip), Stamped(op.now, op.endpoint), cutoff);
      }
    }
  }

  lemma ErrorsPush(responses: Responses, r: Stamped<Outcome>)
    ensures Errors(responses + [r]) == Errors(responses) + if r.item.status >= 400 then 1 else 0
  {
    assert (responses + [r])[..|responses|] == responses;
  }

  lemma {:induction false} ResponsesCounted(ops: seq<Op>, k: nat, ip: string, cutoff: int)
    requires k <= |ops|
    ensures |Since(AllResponses(ops, k, ip), cutoff)| == |ResponseOps(ops, k, ip, cutoff)|
  {
    hide Since;
    if k == 0 {
      SinceNothing<Outcome>([], cutoff);
    } else {
      var op := ops[k - 1];
      ResponsesCounted(ops, k - 1, ip, cutoff);
      assert ResponseOps(ops, k, ip, cutoff) == ResponseOps(ops, k - 1, ip, cutoff) +
        if op.Response? && op.ip == ip && op.now > cutoff then {k - 1} else {};
      if op.Response? {
        SinceAppend(AllResponses(ops, k - 1, ip), Stamped(op.now, op.outcome), cutoff);
      }
    }
  }

  lemma ErrorOpsStep(ops: seq<Op>, k: nat, ip: string, cutoff: int)
    requires 0 < k <= |ops|
    ensures var op := ops[k - 1];
      |ErrorOps(ops, k, ip, cutoff)| == |ErrorOps(ops, k - 1, ip, cutoff)| +
        if op.Response? && op.ip == ip && op.now > cutoff && op.outcome.status >= 400 then 1 else 0
  {
    var op := ops[k - 1];
    var last: set<int> :=
      if op.Response? && op.ip == ip && op.now > cutoff && op.outcome.status >= 400 then {k - 1} else {};
    assert ErrorOps(ops, k, ip, cutoff) == ErrorOps(ops, k - 1, ip, cutoff) + last;
  }

  lemma NoErrors(ops: seq<Op>, ip: string, cutoff: int)
    ensures Errors(Since(AllResponses(ops, 0, ip), cutoff)) == |ErrorOps(ops, 0, ip, cutoff)|
  {
    assert ErrorOps(ops, 0, ip, cutoff) == {};
  }

  lemma {:induction false} ErrorsCounted(ops: seq<Op>, k: nat, ip: string, cutoff: int)
    requires k <= |ops|
    ensures Errors(Since(AllResponses(ops, k, ip), cutoff)) == |ErrorOps(ops, k, ip, cutoff)|
  {
    hide Since, Errors, ErrorOps;
    if k == 0 {
      NoErrors(ops, ip, cutoff);
    } else {
      var op := ops[k - 1];
      ErrorsCounted(ops, k - 1, ip, cutoff);
      ErrorOpsStep(ops, k, ip, cutoff);
      if op.Response? {
        var before, x := AllResponses(ops, k - 1, ip), Stamped(op.now, op.outcome);
        SinceAppend(before, x, cutoff);
        ErrorsPush(Since(before, cutoff), x);
      }
    }
  }

  /** In every run with prunings anywhere, the counts and the error rate of a request are those of all operations
      on its IP in the last 10 and 60 seconds. */
  lemma CountsFromRun(ops: seq<Op>, k: nat, entropy: Entropy)
    requires Clocked(ops) && k < |ops| && ops[k].Request?
    ensures var f, ip, now := FeaturesAfter(ops, k, entropy), ops[k].ip, ops[k].now;
      var n := |ResponseOps(ops, k + 1, ip, now - 60_000_000_000)|;
      && f.reqs10s == |RequestOps(ops, k + 1, ip, now - 10_000_000_000)|
      && f.reqs60s == |RequestOps(ops, k + 1, ip, now - 60_000_000_000)|
      && (if n == 0 then f.errorRate == 0.0
          else Times(f.errorRate, n as real) == |ErrorOps(ops, k + 1, ip, now - 60_000_000_000)| as real)
  {
    hide Since, AllRequests, AllResponses, Errors, Times, RequestOps, ResponseOps, ErrorOps, FeaturesAfter, Histogram;
    hide Average, MaxLatency, SquaredDeviations;
    var ip, now := ops[k].ip, ops[k].now;
    var c := now - 60_000_000_000;
    var stats := Since(AllResponses(ops, k + 1, ip), c);
    FeaturesIgnoreForgetting(ops, k, entropy);
    RequestsCounted(ops, k + 1, ip, now - 10_000_000_000);
    RequestsCounted(ops, k + 1, ip, c);
    ResponsesCounted(ops, k + 1, ip, c);
    ErrorsCounted(ops, k + 1, ip, c);
    if stats != [] {
      DivisionTimes(Errors(stats) as real, |stats|);
    }
  }

  // ---------- what is retained ----------

  /** No key with an empty log, and no record that is not later than the cutoff. */
  ghost predicate Recent<T>(m: map<string, seq<Stamped<T>>>, ip: string, cutoff: int) {
    ip in m ==> m[ip] != [] && forall i :: 0 <= i < |m[ip]| ==> m[ip][i].time > cutoff
  }

  lemma SinceRecent<T>(log: seq<Stamped<T>>, cutoff: int)
    ensures forall i :: 0 <= i < |Since(log, cutoff)| ==> Since(log, cutoff)[i].time > cutoff
  {
    forall i | 0 <= i < |Since(log, cutoff)| ensures Since(log, cutoff)[i].time > cutoff {
      SinceMember(log, cutoff, i);
    }
  }

  /** Nothing accumulates: an operation on an IP leaves only its records of the last 60 seconds, and PruneAll
      leaves only those of all; a key without any is gone. */
  lemma OnlyRecentIsRetained(s: State, op: Op, ip: string)
    requires op.PruneAll? || op.ip == ip
    ensures Recent(Step(s, op).requests, ip, op.now - 60_000_000_000)
    ensures Recent(Step(s, op).stats, ip, op.now - 60_000_000_000)
  {
    hide Since;
    var c := op.now - 60_000_000_000;
    SinceRecent(Kept(s.requests, ip), c);
    SinceRecent(Kept(s.stats, ip), c);
    match op
    case Request(who, endpoint, now) =>
      SinceRecent(Kept(s.requests, ip) + [Stamped(now, endpoint)], c);
    case Response(who, outcome, now) =>
      SinceRecent(Kept(s.stats, ip) + [Stamped(now, outcome)], c);
    case PruneAll(now) =>
  }

  // ---------- the object ----------

  class MLProtection {
    var requests: map<string, Requests>
    var ipStats: map<string, Responses>

    ghost function Abs(): State
      reads this
    {
      State(requests, ipStats)
    }

    constructor ()
      ensures Abs() == State(map[], map[])
    {
      requests, ipStats := map[], map[];
    }

    method PruneIp(ip: string, now: int)
      modifies this
      ensures Abs() == State(PrunedFor(old(requests), ip, now), PrunedFor(old(ipStats), ip, now))
    {
      var validReqs := Prune(Kept(requests, ip), now - WINDOW_60S);
      requests := if |validReqs| > 0 then requests[ip := validReqs] else requests - {ip};
      var validStats := Prune(Kept(ipStats, ip), now - WINDOW_60S);
      ipStats := if |validStats| > 0 then ipStats[ip := validStats] else ipStats - {ip};
    }

    /** Each of the two loops of PruneAll. */
    static method PruneEvery<T>(m: map<string, seq<Stamped<T>>>, now: int)
      returns (pruned: map<string, seq<Stamped<T>>>)
      ensures pruned == PrunedAll(m, now)
    {
      pruned := m;
      var ips := m.Keys;
      while ips != {}
        invariant ips <= pruned.Keys <= m.Keys
        invariant forall ip :: ip in ips ==> pruned[ip] == m[ip]
        invariant forall ip :: ip in m && ip !in ips ==> (ip in pruned <==> Since(m[ip], now - WINDOW_60S) != [])
        invariant forall ip :: ip in pruned && ip !in ips ==> pruned[ip] == Since(m[ip], now - WINDOW_60S)
      {
        var ip :| ip in ips;
        var valid := Prune(m[ip], now - WINDOW_60S);
        pruned := if |valid| == 0 then pruned - {ip} else pruned[ip := valid];
        ips := ips - {ip};
      }
    }

    method PruneAllIps(now: int)
      modifies this
      ensures Abs() == Step(old(Abs()), PruneAll(now))
    {
      requests := PruneEvery(requests, now);
      ipStats := PruneEvery(ipStats, now);
    }

    method RecordBackendResponse(ip: string, statusCode: int, latencyMs: real, now: int)
      modifies this
      ensures Abs() == Step(old(Abs()), Response(ip, Outcome(statusCode, latencyMs), now))
    {
      ipStats := ipStats[ip := Kept(ipStats, ip) + [Stamped(now, Outcome(statusCode, latencyMs))]];
      PruneIp(ip, now);
    }

    method RecordRequest(ip: string, endpoint: string, now: int, entropy: Entropy) returns (features: Features)
      modifies this
      ensures Abs() == Step(old(Abs()), Request(ip, endpoint, now))
      ensures features == FeaturesAt(Kept(requests, ip), Kept(ipStats, ip), now, entropy)
    {
      requests := requests[ip := Kept(requests, ip) + [Stamped(now, endpoint)]];
      PruneIp(ip, now);
      StatsAreRecent(old(ipStats), ip, now);
      features := Compute(Kept(requests, ip), Kept(ipStats, ip), now, entropy);
    }

    static lemma StatsAreRecent(stats: map<string, Responses>, ip: string, now: int)
      ensures var kept := Kept(PrunedFor(stats, ip, now), ip); Since(kept, now - WINDOW_60S) == kept
    {
      SinceTwice(Kept(stats, ip), now - WINDOW_60S, now - WINDOW_60S);
    }

    /** The loops that accumulate the features; the statistics are those of all retained responses. */
    static method Compute(window: Requests, stats: Responses, now: int, entropy: Entropy) returns (features: Features)
      requires Since(stats, now - WINDOW_60S) == stats
      ensures features == FeaturesAt(window, stats, now, entropy)
    {
      var reqs10s, reqs60s, endpointCounts := CountRequests(window, now);
      var errorCount, totalLatency, maxLatency := 0, 0.0, 0.0;
      for i := 0 to |stats|
        invariant errorCount == Errors(stats[..i]) && totalLatency == TotalLatency(stats[..i])
        invariant maxLatency == MaxLatency(stats[..i])
      {
        assert stats[..i + 1][..i] == stats[..i];
        if stats[i].item.status >= 400 {
          errorCount := errorCount + 1;
        }
        totalLatency := totalLatency + stats[i].item.latencyMs;
        if stats[i].item.latencyMs > maxLatency {
          maxLatency := stats[i].item.latencyMs;
        }
      }
      assert stats[..|stats|] == stats;
      var errorRate, latencySpike, variance := 0.0, 0.0, 0.0;
      if |stats| > 0 {
        errorRate := errorCount as real / |stats| as real;
        var avgLatency := totalLatency / |stats| as real;
        if maxLatency > avgLatency * 1.5 && maxLatency > 100.0 {
          latencySpike := 1.0;
        }
      }
      if |stats| > 1 {
        var sumSquares := SumSquares(stats, totalLatency / |stats| as real);
        variance := sumSquares / (|stats| - 1) as real;
      }
      features := Features(reqs10s, reqs60s, entropy(endpointCounts), latencySpike, errorRate, variance);
    }

    static lemma NothingCounted(now: int)
      ensures Histogram([]) == map[]
      ensures |Since<string>([], now - WINDOW_10S)| == 0 && Since<string>([], now - WINDOW_60S) == []
    {
    }

    static lemma HistogramPush(requests: Requests, r: Stamped<string>)
      ensures var before := Histogram(requests);
        Histogram(requests + [r]) == before[r.item := 1 + if r.item in before then before[r.item] else 0]
    {
      assert (requests + [r])[..|requests|] == requests;
    }

    static method CountRequests(window: Requests, now: int)
      returns (reqs10s: nat, reqs60s: nat, endpointCounts: map<string, nat>)
      ensures reqs10s == |Since(window, now - WINDOW_10S)| && reqs60s == |Since(window, now - WINDOW_60S)|
      ensures endpointCounts == Histogram(Since(window, now - WINDOW_60S))
    {
      hide Since, Histogram;
      reqs10s, reqs60s, endpointCounts := 0, 0, map[];
      NothingCounted(now);
      for i := 0 to |window|
        invariant reqs10s == |Since(window[..i], now - WINDOW_10S)| && reqs60s == |Since(window[..i], now - WINDOW_60S)|
        invariant endpointCounts == Histogram(Since(window[..i], now - WINDOW_60S))
      {
        var r := window[i];
        assert window[..i + 1] == window[..i] + [r];
        SinceAppend(window[..i], r, now - WINDOW_10S);
        SinceAppend(window[..i], r, now - WINDOW_60S);
        if r.time > now - WINDOW_10S {
          reqs10s := reqs10s + 1;
        }
        if r.time > now - WINDOW_60S {
          reqs60s := reqs60s + 1;
          HistogramPush(Since(window[..i], now - WINDOW_60S), r);
          var count := if r.item in endpointCounts then endpointCounts[r.item] else 0;
          endpointCounts := endpointCounts[r.item := 1 + count];
        }
      }
      assert window[..|window|] == window;
    }

    static method SumSquares(stats: Responses, avg: real) returns (sum: real)
      ensures sum == SquaredDeviations(stats, avg)
    {
      sum := 0.0;
      for i := 0 to |stats|
        invariant sum == SquaredDeviations(stats[..i], avg)
      {
        assert stats[..i + 1][..i] == stats[..i];
        sum := sum + Square(stats[i].item.latencyMs - avg);
      }
      assert stats[..|stats|] == stats;
    }
  }
}
