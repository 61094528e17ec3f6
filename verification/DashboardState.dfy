/** monitoring/dashboard_state.go: two ring buffers, the 99th percentile of the recent latencies, and the
    feed of recent events. */
module DashboardState {
  import opened Common

  const LATENCY_RING: nat := 2000
  const EVENT_RING: nat := 50
  const ZERO_TIME: int := 0

  datatype MitigationEvent = MitigationEvent(
    timestamp: int, kind: string, ipHash: string, path: string, score: Option<real>, detail: string, status: int)

  // ---------- ring buffers ----------

  /** A ring whose next write goes to idx holds the end of the log: from idx around to idx once it has
      wrapped, and in its first idx places before. */
  ghost predicate RingHolds<T>(ring: seq<T>, idx: nat, log: seq<T>) {
    && idx < |ring|
    && if |log| < |ring| then idx == |log| && ring[..idx] == log
       else ring[idx..] + ring[..idx] == LastN(log, |ring|)
  }

  lemma RingPush<T>(ring: seq<T>, idx: nat, log: seq<T>, x: T)
    requires RingHolds(ring, idx, log)
    ensures RingHolds(ring[idx := x], if idx + 1 < |ring| then idx + 1 else 0, log + [x])
  {
    var n, after := |ring|, ring[idx := x];
    var next := if idx + 1 < n then idx + 1 else 0;
    if |log| + 1 < n {
      assert after[..next] == log + [x];
    } else if |log| < n {
      assert after[next..] + after[..next] == after == log + [x];
    } else {
      LastNAppend(log, n, x);
      assert after[next..] + after[..next] == (ring[idx..] + ring[..idx])[1..] + [x];
    }
  }

  // ---------- the nearest-rank percentile ----------

  predicate Ordered(s: seq<real>) {
    forall i, j :: 0 <= i < j < |s| ==> s[i] <= s[j]
  }

  function Insert(s: seq<real>, x: real): (r: seq<real>) {
    if s == [] then [x]
    else
      var last := s[|s| - 1];
      if last <= x then s + [x] else Insert(s[..|s| - 1], x) + [last]
  }

  lemma {:induction false} InsertMultiset(s: seq<real>, x: real)
    ensures multiset(Insert(s, x)) == multiset(s) + multiset{x}
  {
    if s == [] {
    } else {
      InsertMultiset(s[..|s| - 1], x);
      assert s == s[..|s| - 1] + [s[|s| - 1]];
    }
  }

  lemma {:induction false} InsertOrdered(s: seq<real>, x: real)
    requires Ordered(s)
    ensures Ordered(Insert(s, x))
  {
    if s == [] {
    } else {
      var front, last := s[..|s| - 1], s[|s| - 1];
      InsertOrdered(front, x);
      InsertMultiset(front, x);
      var rest := Insert(front, x);
      forall i | 0 <= i < |rest| ensures rest[i] == x || rest[i] in front {
        assert rest[i] in multiset(rest);
      }
    }
  }

  /** sort.Float64s. */
  function Sorted(s: seq<real>): (r: seq<real>)
    ensures Ordered(r) && multiset(r) == multiset(s)
  {
    if s == [] then []
    else
      var rest := Sorted(s[..|s| - 1]);
      assert s == s[..|s| - 1] + [s[|s| - 1]];
      InsertMultiset(rest, s[|s| - 1]);
      InsertOrdered(rest, s[|s| - 1]);
      Insert(rest, s[|s| - 1])
  }

  function CountAtMost(s: seq<real>, q: real): (n: nat)
    ensures n <= |s|
  {
    if s == [] then 0
    else if s[|s| - 1] <= q then CountAtMost(s[..|s| - 1], q) + 1 else CountAtMost(s[..|s| - 1], q)
  }

  lemma {:induction false} CountIsCardinality(s: seq<real>, q: real)
    ensures CountAtMost(s, q) == |set i | 0 <= i < |s| && s[i] <= q|
  {
    if s == [] {
    } else {
      var front, n := s[..|s| - 1], |s| - 1;
      CountIsCardinality(front, q);
      assert (set i | 0 <= i < |s| && s[i] <= q) ==
             (set i | 0 <= i < |front| && front[i] <= q) + if s[n] <= q then {n} else {};
    }
  }

  lemma {:induction false} CountAppend(s: seq<real>, t: seq<real>, q: real)
    ensures CountAtMost(s + t, q) == CountAtMost(s, q) + CountAtMost(t, q)
  {
    if t == [] {
      assert s + t == s;
    } else {
      CountAppend(s, t[..|t| - 1], q);
      assert (s + t)[..|s + t| - 1] == s + t[..|t| - 1];
    }
  }

  /** t without one occurrence of x. */
  lemma CountWithout(t: seq<real>, i: nat, q: real) returns (others: seq<real>)
    requires i < |t|
    ensures multiset(others) == multiset(t) - multiset{t[i]}
    ensures CountAtMost(t, q) == CountAtMost(others, q) + if t[i] <= q then 1 else 0
  {
    hide CountAtMost;
    others := t[..i] + t[i + 1..];
    assert t == t[..i] + [t[i]] + t[i + 1..];
    CountAppend(t[..i], [t[i]], q);
    CountAppend(t[..i] + [t[i]], t[i + 1..], q);
    CountAppend(t[..i], t[i + 1..], q);
    CountExtremes([t[i]], q);
  }

  /** The count depends on the samples only, not on their order. */
  lemma {:induction false} CountPermuted(s: seq<real>, t: seq<real>, q: real)
    requires multiset(s) == multiset(t)
    ensures CountAtMost(s, q) == CountAtMost(t, q)
  {
    if s == [] {
      assert |multiset(s)| == |multiset(t)|;
    } else {
      var front, x := s[..|s| - 1], s[|s| - 1];
      assert s == front + [x];
      assert x in multiset(t);
      var i :| 0 <= i < |t| && t[i] == x;
      var others := CountWithout(t, i, q);
      assert multiset(front) == multiset(s) - multiset{x};
      CountPermuted(front, others, q);
    }
  }

  lemma {:induction false} CountExtremes(s: seq<real>, q: real)
    ensures (forall i :: 0 <= i < |s| ==> s[i] <= q) ==> CountAtMost(s, q) == |s|
    ensures (forall i :: 0 <= i < |s| ==> s[i] > q) ==> CountAtMost(s, q) == 0
  {
    if s == [] {
    } else {
      CountExtremes(s[..|s| - 1], q);
    }
  }

  lemma CountOrdered(s: seq<real>, k: nat, q: real)
    requires Ordered(s) && k < |s|
    ensures s[k] <= q ==> CountAtMost(s, q) >= k + 1
    ensures q < s[k] ==> CountAtMost(s, q) <= k
  {
    hide CountAtMost;
    if s[k] <= q {
      CountExtremes(s[..k + 1], q);
      CountAppend(s[..k + 1], s[k + 1..], q);
      assert s == s[..k + 1] + s[k + 1..];
    } else {
      CountExtremes(s[k..], q);
      CountAppend(s[..k], s[k..], q);
      assert s == s[..k] + s[k..];
    }
  }

  /** The least value with at least 99% of the samples at or below it; one of the samples. */
  ghost predicate IsP99(sample: seq<real>, p: real) {
    && p in sample
    && 100 * CountAtMost(sample, p) >= 99 * |sample|
    && forall q :: q < p ==> 100 * CountAtMost(sample, q) < 99 * |sample|
  }

  /** ceil(0.99 n) - 1. */
  function RankIndex(n: nat): int {
    (99 * n + 99) / 100 - 1
  }

  /** Neither clamp around the rank can fire. */
  lemma RankInRange(n: nat)
    ensures n > 0 ==> 0 <= RankIndex(n) < n && 100 * RankIndex(n) < 99 * n <= 100 * (RankIndex(n) + 1)
  {
  }

  lemma RankIsP99(ordered: seq<real>, sample: seq<real>)
    requires Ordered(ordered) && multiset(ordered) == multiset(sample) && ordered != []
    ensures 0 <= RankIndex(|ordered|) < |ordered| && IsP99(sample, ordered[RankIndex(|ordered|)])
  {
    hide CountAtMost;
    RankInRange(|ordered|);
    var k := RankIndex(|ordered|);
    var p := ordered[k];
    assert |ordered| == |multiset(ordered)| == |multiset(sample)| == |sample|;
    assert p in multiset(ordered);
    assert p in multiset(sample);
    CountPermuted(sample, ordered, p);
    CountOrdered(ordered, k, p);
    forall q | q < p ensures 100 * CountAtMost(sample, q) < 99 * |sample| {
      CountPermuted(sample, ordered, q);
      CountOrdered(ordered, k, q);
    }
  }

  /** At most one value is the percentile. */
  lemma P99IsUnique(sample: seq<real>, p: real, q: real)
    requires IsP99(sample, p) && IsP99(sample, q)
    ensures p == q
  {
  }

  /** math.Round: halves go away from zero. */
  function Nearest(x: real): (n: int)
    ensures -0.5 <= n as real - x <= 0.5
    ensures (n as real - x == 0.5 ==> x >= 0.0) && (n as real - x == -0.5 ==> x <= 0.0)
  {
    if x >= 0.0 then (x + 0.5).Floor else -(-x + 0.5).Floor
  }

  /** math.Round(x*100) / 100. */
  function Rounded(x: real): (r: real)
    ensures -0.005 <= r - x <= 0.005
    ensures r * 100.0 == Nearest(x * 100.0) as real
  {
    Nearest(x * 100.0) as real / 100.0
  }

  /** Rounding keeps the order. */
  lemma RoundedMonotone(x: real, y: real)
    requires x <= y
    ensures Rounded(x) <= Rounded(y)
  {
    NearestMonotone(x * 100.0, y * 100.0);
  }

  lemma NearestMonotone(x: real, y: real)
    requires x <= y
    ensures Nearest(x) <= Nearest(y)
  {
  }

  // ---------- the event feed ----------

  /** Newest first, without the events that carry no timestamp. */
  function Feed(log: seq<MitigationEvent>): seq<MitigationEvent> {
    if log == [] then []
    else
      var rest := Feed(log[..|log| - 1]);
      if log[|log| - 1].timestamp == ZERO_TIME then rest else [log[|log| - 1]] + rest
  }

  lemma {:induction false} FeedMember(log: seq<MitigationEvent>, e: MitigationEvent)
    ensures e in Feed(log) <==> e in log && e.timestamp != ZERO_TIME
  {
    if log == [] {
    } else {
      FeedMember(log[..|log| - 1], e);
      assert log == log[..|log| - 1] + [log[|log| - 1]];
    }
  }

  /** The positions from lo on whose events carry a timestamp. */
  ghost function Dated(log: seq<MitigationEvent>, lo: nat): set<int> {
    set j | lo <= j < |log| && log[j].timestamp != 0
  }

  lemma DatedLast(log: seq<MitigationEvent>, lo: nat)
    requires lo < |log|
    ensures |Dated(log, lo)| ==
            |Dated(log[..|log| - 1], lo)| + if log[|log| - 1].timestamp != 0 then 1 else 0
  {
    var last: set<int> := if log[|log| - 1].timestamp != 0 then {|log| - 1} else {};
    assert Dated(log, lo) == Dated(log[..|log| - 1], lo) + last;
  }

  lemma {:induction false} FeedLength(log: seq<MitigationEvent>)
    ensures |Feed(log)| == |Dated(log, 0)|
  {
    hide Dated;
    if log == [] {
      NothingDated(log);
    } else {
      DatedLast(log, 0);
      FeedLength(log[..|log| - 1]);
    }
  }

  lemma NothingDated(log: seq<MitigationEvent>)
    ensures Dated(log, |log|) == {}
  {
  }

  /** Every dated event appears exactly once, after as many others as there are newer dated events: newest first. */
  lemma {:induction false} FeedPosition(log: seq<MitigationEvent>, i: nat)
    requires i < |log|
    ensures |Feed(log)| == |Dated(log, 0)|
    ensures log[i].timestamp != 0 ==>
      |Dated(log, i + 1)| < |Feed(log)| && Feed(log)[|Dated(log, i + 1)|] == log[i]
  {
    hide Dated;
    FeedLength(log);
    if i == |log| - 1 {
      NothingDated(log);
    } else {
      DatedLast(log, i + 1);
      FeedPosition(log[..|log| - 1], i);
    }
  }

  lemma FeedStep(recent: seq<MitigationEvent>, window: seq<MitigationEvent>, n: nat)
    requires 0 < n <= |window|
    ensures recent + Feed(window[..n]) ==
            (if window[n - 1].timestamp == ZERO_TIME then recent else recent + [window[n - 1]]) + Feed(window[..n - 1])
  {
    assert window[..n][..n - 1] == window[..n - 1];
  }

  /** The wrapped index of the backwards read. */
  lemma ReadBackwards<T>(ring: seq<T>, idx: nat, i: nat)
    requires |ring| == EVENT_RING && idx < EVENT_RING && i < EVENT_RING
    ensures var p := (idx - 1 - i + EVENT_RING) % EVENT_RING;
            p < EVENT_RING && ring[p] == (ring[idx..] + ring[..idx])[EVENT_RING - 1 - i]
  {
    var back := idx - 1 - i;
    assert (back + EVENT_RING) % EVENT_RING == if back >= 0 then back else back + EVENT_RING;
  }

  // ---------- the dashboard ----------

  class Dashboard {
    const latencies: array<real>
    var latencyIdx: nat
    var latencyCount: nat
    const events: array<MitigationEvent>
    var eventsIdx: nat
    var eventsFull: bool

    // Everything ever recorded.
    ghost var latencyLog: seq<real>
    ghost var eventLog: seq<MitigationEvent>

    ghost predicate Valid()
      reads this, latencies, events
    {
      && latencies.Length == LATENCY_RING && RingHolds(latencies[..], latencyIdx, latencyLog)
      && latencyCount == |LastN(latencyLog, LATENCY_RING)|
      && events.Length == EVENT_RING && RingHolds(events[..], eventsIdx, eventLog)
      && eventsFull == (|eventLog| >= EVENT_RING)
    }

    constructor ()
      ensures Valid() && fresh(latencies) && fresh(events) && latencyLog == [] && eventLog == []
    {
      latencies := new real[LATENCY_RING](_ => 0.0);
      events := new MitigationEvent[EVENT_RING](_ => MitigationEvent(ZERO_TIME, "", "", "", None, "", 0));
      latencyIdx, latencyCount, eventsIdx, eventsFull := 0, 0, 0, false;
      latencyLog, eventLog := [], [];
    }

    /** The latency part of RecordRequest. */
    method RecordLatency(latencyMs: real)
      requires Valid()
      modifies this`latencyIdx, this`latencyCount, this`latencyLog, latencies
      ensures Valid() && latencyLog == old(latencyLog) + [latencyMs]
    {
      RingPush(latencies[..], latencyIdx, latencyLog, latencyMs);
      latencies[latencyIdx] := latencyMs;
      assert latencies[..] == old(latencies[..])[latencyIdx := latencyMs];
      assert (latencyIdx + 1) % LATENCY_RING == if latencyIdx + 1 < LATENCY_RING then latencyIdx + 1 else 0;
      latencyIdx := (latencyIdx + 1) % LATENCY_RING;
      if latencyCount < LATENCY_RING {
        latencyCount := latencyCount + 1;
      }
      latencyLog := latencyLog + [latencyMs];
    }

    method RecordEvent(evt: MitigationEvent)
      requires Valid()
      modifies this`eventsIdx, this`eventsFull, this`eventLog, events
      ensures Valid() && eventLog == old(eventLog) + [evt]
    {
      RingPush(events[..], eventsIdx, eventLog, evt);
      events[eventsIdx] := evt;
      assert events[..] == old(events[..])[eventsIdx := evt];
      assert (eventsIdx + 1) % events.Length == if eventsIdx + 1 < EVENT_RING then eventsIdx + 1 else 0;
      eventsIdx := (eventsIdx + 1) % events.Length;
      if !eventsFull && eventsIdx == 0 {
        eventsFull := true;
      }
      eventLog := eventLog + [evt];
    }

    /** The samples that Snapshot copies out are the last 2000 latencies, in some order. */
    lemma SampleIsRecent()
      requires Valid()
      ensures latencyCount <= LATENCY_RING
      ensures multiset(latencies[..latencyCount]) == multiset(LastN(latencyLog, LATENCY_RING))
    {
      if |latencyLog| < LATENCY_RING {
        assert latencies[..latencyCount] == latencies[..][..latencyIdx];
      } else {
        var ring := latencies[..];
        assert latencies[..latencyCount] == ring[..latencyIdx] + ring[latencyIdx..];
      }
    }

    /** The percentile of Snapshot, rounded to two decimals. */
    method P99Latency() returns (p99: Option<real>)
      requires Valid()
      ensures p99.None? <==> latencyLog == []
      ensures p99.Some? ==> exists p :: IsP99(LastN(latencyLog, 2000), p) && p99.value == Rounded(p)
    {
      SampleIsRecent();
      if latencyCount == 0 {
        return None;
      }
      var sorted := Sorted(latencies[..latencyCount]);
      assert |sorted| == |multiset(sorted)| == |multiset(latencies[..latencyCount])| == latencyCount;
      RankIsP99(sorted, LastN(latencyLog, LATENCY_RING));
      var p99Idx := RankIndex(|sorted|);
      if p99Idx < 0 {
        p99Idx := 0;
      }
      if p99Idx >= |sorted| {
        p99Idx := |sorted| - 1;
      }
      return Some(Rounded(sorted[p99Idx]));
    }

    /** The feed of Snapshot: the last 50 events, newest first, those without a timestamp skipped. */
    method RecentEvents() returns (recent: seq<MitigationEvent>)
      requires Valid()
      ensures recent == Feed(LastN(eventLog, 50))
    {
      recent := [];
      ghost var window := LastN(eventLog, EVENT_RING);
      ghost var ring := events[..];
      if eventsFull {
        assert window[..EVENT_RING] == window;
        for i := 0 to events.Length
          invariant recent + Feed(window[..EVENT_RING - i]) == Feed(window)
        {
          var idx := (eventsIdx - 1 - i + events.Length) % events.Length;
          ReadBackwards(ring, eventsIdx, i);
          FeedStep(recent, window, EVENT_RING - i);
          if events[idx].timestamp != ZERO_TIME {
            recent := recent + [events[idx]];
          }
        }
      } else {
        assert window == ring[..eventsIdx] == window[..eventsIdx];
        var i := eventsIdx - 1;
        while i >= 0
          invariant -1 <= i < eventsIdx
          invariant recent + Feed(window[..i + 1]) == Feed(window)
        {
          FeedStep(recent, window, i + 1);
          if events[i].timestamp != ZERO_TIME {
            recent := recent + [events[i]];
          }
          i := i - 1;
        }
      }
    }
  }
}
