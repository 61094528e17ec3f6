/** pipeline/feature_extraction/feature_extractor.py: when the offline extractor evaluates its sliding
    windows. Times are seconds as real numbers; the logs are sorted by time, as the extractor sorts
    them first. */
module FeatureExtractor {
  import opened Common

  ghost predicate Sorted(ts: seq<real>) {
    forall i, j :: 0 <= i <= j < |ts| ==> ts[i] <= ts[j]
  }

  /** The request at time t lies in the window [end - size, end]. */
  predicate InWindow(t: real, end: real, size: real) {
    0.0 <= end - t <= size
  }

  predicate HasRequests(ts: seq<real>, end: real, size: real) {
    exists i :: 0 <= i < |ts| && InWindow(ts[i], end, size)
  }

  /** Evaluation times stand at least one step apart. */
  ghost predicate Spaced(times: seq<real>, step: real) {
    forall i, j :: 0 <= i < j < |times| ==> times[i] + step <= times[j]
  }

  ghost predicate Covered(times: seq<real>, t: real, size: real) {
    exists k :: 0 <= k < |times| && InWindow(t, times[k], size)
  }

  /** The first request after a moment, if there is one. */
  method NextRequest(ts: seq<real>, moment: real) returns (next: Option<real>)
    requires Sorted(ts)
    ensures next.None? ==> forall i :: 0 <= i < |ts| ==> ts[i] <= moment
    ensures next.Some? ==> next.value > moment && next.value in ts
    ensures next.Some? ==> forall i :: 0 <= i < |ts| ==> ts[i] <= moment || ts[i] >= next.value
  {
    for i := 0 to |ts|
      invariant forall j :: 0 <= j < i ==> ts[j] <= moment
    {
      if ts[i] > moment {
        return Some(ts[i]);
      }
    }
    return None;
  }

  /** The client is idle for longer than a window after this moment, but comes back. */
  ghost predicate IdleAfter(ts: seq<real>, end: real, size: real) {
    (exists i :: 0 <= i < |ts| && ts[i] > end) && forall i :: 0 <= i < |ts| && ts[i] > end ==> ts[i] > end + size
  }

  /** The first request after a moment. */
  ghost predicate First(ts: seq<real>, moment: real, i: nat) {
    i < |ts| && ts[i] > moment && forall j :: 0 <= j < |ts| && ts[j] > moment ==> ts[j] >= ts[i]
  }

  /** From an idle moment the schedule jumps to one step after the next request, and otherwise it
      advances by one step. */
  ghost predicate NextMoment(ts: seq<real>, size: real, step: real, end: real, later: real) {
    if IdleAfter(ts, end, size) then
      exists i: nat :: First(ts, end, i) && later == ts[i] + step
    else later == end + step
  }

  /** The moments that the extractor looks at, from one step after the first request to at most one step
      after the last. */
  ghost predicate Schedule(ts: seq<real>, size: real, step: real, moments: seq<real>) {
    && ts != [] && moments != [] && moments[0] == ts[0] + step
    && forall k :: 0 < k < |moments| ==> NextMoment(ts, size, step, moments[k - 1], moments[k])
  }

  /** The moments whose window holds a request. */
  function Inhabited(ts: seq<real>, size: real, moments: seq<real>): seq<real> {
    if moments == [] then []
    else
      var front, last := Inhabited(ts, size, moments[..|moments| - 1]), moments[|moments| - 1];
      if HasRequests(ts, last, size) then front + [last] else front
  }

  /** The schedule up to the first moment that lies beyond one step after the last request. */
  ghost predicate WholeSchedule(ts: seq<real>, size: real, step: real, moments: seq<real>) {
    && Schedule(ts, size, step, moments)
    && forall k :: 0 <= k < |moments| ==> (moments[k] <= ts[|ts| - 1] + step <==> k < |moments| - 1)
  }

  /** The evaluation times of one IP: the inhabited moments of the whole schedule. A log no longer than a
      step is evaluated once, at its end. */
  ghost predicate Evaluates(ts: seq<real>, size: real, step: real, times: seq<real>)
    requires ts != []
  {
    if ts[|ts| - 1] - ts[0] <= step then times == [ts[|ts| - 1]]
    else
      exists moments ::
        WholeSchedule(ts, size, step, moments) && times == Inhabited(ts, size, moments[..|moments| - 1])
  }

  method EvaluationTimes(ts: seq<real>, size: real, step: real) returns (times: seq<real>)
    requires Sorted(ts) && ts != [] && size > 0.0 && step > 0.0
    ensures Evaluates(ts, size, step, times)
    ensures Spaced(times, step)
    ensures forall k :: 0 <= k < |times| ==> HasRequests(ts, times[k], size)
    ensures step <= size ==> forall i :: 0 <= i < |ts| ==> Covered(times, ts[i], size)
  {
    hide Inhabited, NextMoment;
    var first, last := ts[0], ts[|ts| - 1];
    if last - first <= step {
      times := [last];
      OneWindow(ts, size, step);
      return;
    }
    times := [];
    var end := first + step;
    ghost var moments := [end];
    NoneInhabited(ts, size);
    while end <= last + step
      invariant Schedule(ts, size, step, moments) && moments[|moments| - 1] == end
      invariant forall k :: 0 <= k < |moments| - 1 ==> moments[k] <= last + step
      invariant |moments| == 1 ==> end <= last + step
      invariant times == Inhabited(ts, size, moments[..|moments| - 1])
      decreases (last + step - end) / step
    {
      if HasRequests(ts, end, size) {
        times := times + [end];
      }
      InhabitedStep(ts, size, moments);
      end := Advance(ts, end, size, step);
      assert (moments + [end])[..|moments|] == moments;
      moments := moments + [end];
    }
    assert WholeSchedule(ts, size, step, moments);
    EvaluatedAll(ts, size, step, moments);
  }

  lemma OneWindow(ts: seq<real>, size: real, step: real)
    requires Sorted(ts) && ts != [] && size > 0.0 && ts[|ts| - 1] - ts[0] <= step
    ensures HasRequests(ts, ts[|ts| - 1], size)
    ensures step <= size ==> forall i :: 0 <= i < |ts| ==> Covered([ts[|ts| - 1]], ts[i], size)
  {
    var last := ts[|ts| - 1];
    assert InWindow(ts[|ts| - 1], last, size);
    forall i | 0 <= i < |ts| && step <= size ensures Covered([last], ts[i], size) {
      assert ts[0] <= ts[i] <= last && InWindow(ts[i], [last][0], size);
    }
  }

  lemma NoneInhabited(ts: seq<real>, size: real)
    ensures Inhabited(ts, size, []) == []
  {
  }

  lemma InhabitedStep(ts: seq<real>, size: real, moments: seq<real>)
    requires moments != []
    ensures var front, last := Inhabited(ts, size, moments[..|moments| - 1]), moments[|moments| - 1];
      Inhabited(ts, size, moments) == if HasRequests(ts, last, size) then front + [last] else front
  {
  }

  /** The next moment to look at; what is left of the log shrinks by a step at least. */
  method Advance(ts: seq<real>, end: real, size: real, step: real) returns (later: real)
    requires Sorted(ts) && ts != [] && size > 0.0 && step > 0.0 && end <= ts[|ts| - 1] + step
    ensures NextMoment(ts, size, step, end, later)
    ensures var last := ts[|ts| - 1];
      0.0 <= (last + step - end) / step && (last + step - later) / step <= (last + step - end) / step - 1.0
  {
    var next := NextRequest(ts, end);
    ghost var last := ts[|ts| - 1];
    StepDecreases(last + step - end, step);
    if next.Some? && next.value - end > size {
      JumpDecreases(last + step - end, last - next.value, step);
      return next.value + step;
    }
    return end + step;
  }

  // ---------- what a jump passes over ----------

  /** The moment k steps after `end`. */
  function Grid(end: real, step: real, k: nat): real {
    end + Times(k as real, step)
  }

  /** How many steps it takes to cover a distance. */
  function StepsTo(distance: real, step: real): (k: nat)
    requires distance > 0.0 && step > 0.0
    ensures k > 0 && Times((k - 1) as real, step) < distance <= Times(k as real, step)
  {
    var q := distance / step;
    assert q * step == distance;
    var k := -(-q).Floor;
    assert (k - 1) as real < q <= k as real;
    ScaledOrder((k - 1) as real, q, k as real, step);
    k
  }

  lemma ScaledOrder(a: real, b: real, c: real, step: real)
    requires step > 0.0 && a < b <= c
    ensures Times(a, step) < b * step <= Times(c, step)
  {
    TimesPositive(b - a, step);
    TimesNonNegative(c - b, step);
  }

  lemma GridOrder(end: real, step: real, j: nat, k: nat)
    requires step > 0.0 && j <= k
    ensures Grid(end, step, j) <= Grid(end, step, k)
    ensures Grid(end, step, j + 1) == Grid(end, step, j) + step && Grid(end, step, 1) == end + step
  {
    TimesNonNegative((k - j) as real, step);
  }

  /** Jumping from `end` to one step after request `next` passes over the moment k steps on. */
  ghost predicate PassesOver(ts: seq<real>, step: real, end: real, next: nat, k: nat)
    requires next < |ts|
  {
    k > 0 && Grid(end, step, k) < ts[next] + step
  }

  ghost predicate SkipsInhabited(ts: seq<real>, size: real, step: real, end: real, next: nat)
    requires next < |ts|
  {
    exists k: nat :: PassesOver(ts, step, end, next, k) && HasRequests(ts, Grid(end, step, k), size)
  }

  /** The latest request at or before a moment. */
  ghost predicate Latest(ts: seq<real>, moment: real, i: nat) {
    i < |ts| && ts[i] <= moment && forall j :: 0 <= j < |ts| && ts[j] <= moment ==> ts[j] <= ts[i]
  }

  lemma LatestDecides(ts: seq<real>, size: real, moment: real, i: nat)
    requires Latest(ts, moment, i)
    ensures HasRequests(ts, moment, size) <==> moment - ts[i] <= size
  {
    if moment - ts[i] <= size {
      assert InWindow(ts[i], moment, size);
    }
  }

  /** Before the next request, the first moment passed over is the only one to ask about. */
  lemma EarlyMoments(ts: seq<real>, size: real, step: real, end: real, latest: nat, next: nat, k: nat)
    requires step > 0.0 && Latest(ts, end, latest) && First(ts, end, next)
    requires k > 0 && Grid(end, step, k) < ts[next] && HasRequests(ts, Grid(end, step, k), size)
    ensures end + step - ts[latest] <= size
  {
    GridOrder(end, step, 1, k);
    LatestDecides(ts, size, Grid(end, step, k), latest);
  }

  /** A jump does not only skip empty windows. Of the moments it passes over, some window holds a request
      exactly when the first of them still reaches back to the latest request so far, or the last of them,
      which is the one from the next request on, reaches back to the latest request by then. With steps no
      longer than the window the second is always so: every jump passes over an inhabited window. */
  lemma JumpSkipsExactly(ts: seq<real>, size: real, step: real, end: real, latest: nat, next: nat, recent: nat)
    requires size > 0.0 && step > 0.0 && IdleAfter(ts, end, size)
    requires Latest(ts, end, latest) && First(ts, end, next)
    requires Latest(ts, Grid(end, step, StepsTo(ts[next] - end, step)), recent)
    ensures SkipsInhabited(ts, size, step, end, next) <==>
      || end + step - ts[latest] <= size
      || Grid(end, step, StepsTo(ts[next] - end, step)) - ts[recent] <= size
    ensures step <= size ==> SkipsInhabited(ts, size, step, end, next)
  {
    hide Grid, StepsTo, HasRequests;
    var k0 := StepsTo(ts[next] - end, step);
    var e := Grid(end, step, k0);
    LastPassedOver(ts, step, end, next);
    assert PassesOver(ts, step, end, next, k0) && ts[next] <= e;
    LatestDecides(ts, size, e, recent);
    if end + step - ts[latest] <= size {
      GridOrder(end, step, 1, 1);
      LatestDecides(ts, size, end + step, latest);
      assert PassesOver(ts, step, end, next, 1);
    }
    if SkipsInhabited(ts, size, step, end, next) {
      var k: nat :| PassesOver(ts, step, end, next, k) && HasRequests(ts, Grid(end, step, k), size);
      if k < k0 {
        EarlyMoments(ts, size, step, end, latest, next, k);
      } else if k > k0 {
        GridOrder(end, step, k0 + 1, k);
        GridOrder(end, step, k0, k0);
      }
    }
  }

  /** Exactly one moment of the grid lies from the next request on and below the landing point. */
  lemma LastPassedOver(ts: seq<real>, step: real, end: real, next: nat)
    requires step > 0.0 && next < |ts| && ts[next] > end
    ensures var k0 := StepsTo(ts[next] - end, step);
      && k0 > 0 && ts[next] <= Grid(end, step, k0) && Grid(end, step, k0) < ts[next] + step
      && forall k: nat :: k < k0 ==> Grid(end, step, k) < ts[next]
  {
    hide StepsTo;
    var k0 := StepsTo(ts[next] - end, step);
    GridOrder(end, step, k0 - 1, k0);
    forall k: nat | k < k0 ensures Grid(end, step, k) < ts[next] {
      GridOrder(end, step, k, k0 - 1);
    }
  }

  /** Inhabited moments of a schedule stand a step apart, and hold every request up to the last moment. */
  lemma {:induction false} InhabitedFacts(ts: seq<real>, size: real, step: real, moments: seq<real>)
    requires Sorted(ts) && size > 0.0 && step > 0.0 && Schedule(ts, size, step, moments)
    ensures var times, end := Inhabited(ts, size, moments), moments[|moments| - 1];
      && Spaced(times, step)
      && (forall k :: 0 <= k < |times| ==> HasRequests(ts, times[k], size) && times[k] <= end)
      && (step <= size ==> forall i :: 0 <= i < |ts| && ts[i] <= end ==> Covered(times, ts[i], size))
  {
    hide Inhabited, NextMoment, HasRequests, Covered;
    var front, end := moments[..|moments| - 1], moments[|moments| - 1];
    InhabitedStep(ts, size, moments);
    CoverageGrows(ts, Inhabited(ts, size, front), Inhabited(ts, size, moments), end, size);
    if front == [] {
      NoneInhabited(ts, size);
    } else {
      assert NextMoment(ts, size, step, front[|front| - 1], end);
      InhabitedFacts(ts, size, step, front);
      MomentFacts(ts, size, step, front[|front| - 1], end);
    }
  }

  lemma MomentFacts(ts: seq<real>, size: real, step: real, end: real, later: real)
    requires NextMoment(ts, size, step, end, later) && size > 0.0
    ensures later >= end + step
    ensures forall i :: 0 <= i < |ts| && ts[i] > end ==> ts[i] >= later - step
  {
  }

  lemma EvaluatedAll(ts: seq<real>, size: real, step: real, moments: seq<real>)
    requires Sorted(ts) && size > 0.0 && step > 0.0 && Schedule(ts, size, step, moments)
    requires |moments| > 1 && moments[|moments| - 1] > ts[|ts| - 1] + step
    ensures var times := Inhabited(ts, size, moments[..|moments| - 1]);
      && Spaced(times, step)
      && (forall k :: 0 <= k < |times| ==> HasRequests(ts, times[k], size))
      && (step <= size ==> forall i :: 0 <= i < |ts| ==> Covered(times, ts[i], size))
  {
    hide Inhabited, NextMoment, HasRequests, Covered;
    var n := |moments| - 1;
    assert NextMoment(ts, size, step, moments[n - 1], moments[n]);
    MomentFacts(ts, size, step, moments[n - 1], moments[n]);
    InhabitedFacts(ts, size, step, moments[..n]);
  }

  /** Evaluating at end, if anything is there to evaluate, covers every request of that window. */
  lemma CoverageGrows(ts: seq<real>, before: seq<real>, after: seq<real>, end: real, size: real)
    requires after == if HasRequests(ts, end, size) then before + [end] else before
    ensures forall t :: Covered(before, t, size) ==> Covered(after, t, size)
    ensures forall i :: 0 <= i < |ts| && InWindow(ts[i], end, size) ==> Covered(after, ts[i], size)
  {
    forall t | Covered(before, t, size) ensures Covered(after, t, size) {
      var k :| 0 <= k < |before| && InWindow(t, before[k], size);
      assert after[k] == before[k];
    }
    forall i | 0 <= i < |ts| && InWindow(ts[i], end, size) ensures Covered(after, ts[i], size) {
      assert after[|before|] == end;
    }
  }

  lemma StepDecreases(x: real, step: real)
    requires step > 0.0 && x >= 0.0
    ensures (x - step) / step == x / step - 1.0 && x / step >= 0.0
  {
    var q, r := x / step, (x - step) / step;
    assert q * step == x && r * step == x - step;
    SameQuotient(q - 1.0, r, step);
    if q < 0.0 {
      TimesPositive(-q, step);
    }
  }

  lemma SameQuotient(q: real, r: real, step: real)
    requires step > 0.0 && q * step == r * step
    ensures q == r
  {
    if q < r { TimesPositive(r - q, step); }
    if r < q { TimesPositive(q - r, step); }
  }

  lemma JumpDecreases(x: real, y: real, step: real)
    requires step > 0.0 && y <= x - step
    ensures y / step <= x / step - 1.0
  {
    var q, r := x / step, y / step;
    assert q * step == x && r * step == y;
    if r > q - 1.0 {
      TimesPositive(r - (q - 1.0), step);
    }
  }

  // ---------- how many windows hold a request ----------

  function WindowsWith(times: seq<real>, t: real, size: real): nat {
    if times == [] then 0
    else WindowsWith(times[..|times| - 1], t, size) + if InWindow(t, times[|times| - 1], size) then 1 else 0
  }

  lemma {:induction false} WindowsWithIsCardinality(times: seq<real>, t: real, size: real)
    ensures WindowsWith(times, t, size) == |set k | 0 <= k < |times| && 0.0 <= times[k] - t <= size|
  {
    if times == [] {
    } else {
      var front, n := times[..|times| - 1], |times| - 1;
      WindowsWithIsCardinality(front, t, size);
      assert (set k | 0 <= k < |times| && 0.0 <= times[k] - t <= size) ==
             (set k | 0 <= k < |front| && 0.0 <= front[k] - t <= size) +
             if InWindow(t, times[n], size) then {n} else {};
    }
  }

  lemma {:induction false} WindowsSpan(times: seq<real>, t: real, size: real, step: real, bound: real)
    requires Spaced(times, step) && step > 0.0
    requires forall k :: 0 <= k < |times| && InWindow(t, times[k], size) ==> times[k] <= bound
    ensures var c := WindowsWith(times, t, size); c > 0 ==> Times((c - 1) as real, step) <= bound - t
  {
    if times == [] {
    } else {
      var front, last := times[..|times| - 1], times[|times| - 1];
      if InWindow(t, last, size) {
        WindowsSpan(front, t, size, step, last - step);
        var c := WindowsWith(front, t, size);
        if c > 0 {
          TimesSuccessor(c - 1, step);
        } else {
          assert Times(0.0, step) == 0.0;
        }
      } else {
        WindowsSpan(front, t, size, step, bound);
      }
    }
  }

  /** Despite idle-gap jumps, no request lies in more than floor(size / step) + 1 windows. */
  lemma WindowsPerRequest(times: seq<real>, t: real, size: real, step: real)
    requires Spaced(times, step) && step > 0.0 && size > 0.0
    ensures WindowsWith(times, t, size) <= (size / step).Floor + 1
  {
    hide WindowsWith;
    var c, q := WindowsWith(times, t, size), size / step;
    assert q * step == size;
    if q < 0.0 {
      TimesPositive(-q, step);
    }
    if c > 0 {
      WindowsSpan(times, t, size, step, t + size);
      if (c - 1) as real > q {
        TimesPositive((c - 1) as real - q, step);
      }
    }
  }

  // ---------- the two counts of a window ----------

  function CountIn(ts: seq<real>, end: real, size: real): nat {
    if ts == [] then 0 else CountIn(ts[..|ts| - 1], end, size) + if InWindow(ts[|ts| - 1], end, size) then 1 else 0
  }

  lemma {:induction false} CountInIsCardinality(ts: seq<real>, end: real, size: real)
    ensures CountIn(ts, end, size) == |set i | 0 <= i < |ts| && 0.0 <= end - ts[i] <= size|
  {
    if ts == [] {
    } else {
      var front, n := ts[..|ts| - 1], |ts| - 1;
      CountInIsCardinality(front, end, size);
      assert (set i | 0 <= i < |ts| && 0.0 <= end - ts[i] <= size) ==
             (set i | 0 <= i < |front| && 0.0 <= end - front[i] <= size) +
             if InWindow(ts[n], end, size) then {n} else {};
    }
  }

  const SHORT_WINDOW := 10.0

  lemma {:induction false} WiderCountsMore(ts: seq<real>, end: real, narrow: real, wide: real)
    requires narrow <= wide
    ensures CountIn(ts, end, narrow) <= CountIn(ts, end, wide)
  {
    if ts == [] {
    } else {
      WiderCountsMore(ts[..|ts| - 1], end, narrow, wide);
    }
  }

  lemma CountTwo(a: real, b: real, end: real, size: real)
    ensures CountIn([a, b], end, size) ==
            (if InWindow(a, end, size) then 1 else 0) + if InWindow(b, end, size) then 1 else 0
  {
    assert [a, b][..1] == [a] && [a][..0] == [];
    assert CountIn([a], end, size) == if InWindow(a, end, size) then 1 else 0;
  }

  /** A log with at most one short step between its ends: the single window, at the end, holds the last
      request only, and the ten seconds before hold both. */
  lemma TwoRequests(size: real, step: real) returns (ts: seq<real>, times: seq<real>)
    requires 0.0 < size < SHORT_WINDOW && size < step
    ensures Sorted(ts) && ts != [] && Evaluates(ts, size, step, times) && |times| == 1
    ensures CountIn(ts, times[0], SHORT_WINDOW) == 2 && CountIn(ts, times[0], size) == 1
  {
    var last := if step < SHORT_WINDOW then step else SHORT_WINDOW;
    ts, times := [0.0, last], [last];
    CountTwo(0.0, last, last, SHORT_WINDOW);
    CountTwo(0.0, last, last, size);
  }

  /** Requests at 0, at r and at a moment of the schedule that lies more than a window, but at most ten
      seconds, after r. */
  lemma ThreeRequests(size: real, step: real) returns (ts: seq<real>, times: seq<real>, k: nat)
    requires 0.0 < size < SHORT_WINDOW && 0.0 < step <= size
    ensures Sorted(ts) && ts != [] && Evaluates(ts, size, step, times) && k < |times|
    ensures CountIn(ts, times[k], SHORT_WINDOW) >= 2 && CountIn(ts, times[k], size) == 1
  {
    hide Grid, Evaluates, WholeSchedule, Inhabited, CountIn, HasRequests;
    var n := FirstBeyond(size, step);
    var e := Grid(0.0, step, n);
    var r := if e <= SHORT_WINDOW then 0.0 else e - SHORT_WINDOW;
    ts := [0.0, r, e];
    GridOrder(0.0, step, 0, n);
    var moments := GridSchedule(size, step, r, n);
    var front := moments[..|moments| - 1];
    times := Inhabited(ts, size, front);
    EvaluatesGrid(ts, size, step, moments, times);
    LatestDecides(ts, size, e, 2);
    assert front[n - 1] == e;
    k := InhabitedMember(ts, size, front, n - 1);
    ThreeCounts(r, e, size);
  }

  /** The first moment of the grid beyond a window that starts at 0. */
  lemma FirstBeyond(size: real, step: real) returns (n: nat)
    requires 0.0 < step <= size
    ensures n > 1 && size < Grid(0.0, step, n) <= size + step
  {
    hide StepsTo;
    n := StepsTo(size, step);
    if Grid(0.0, step, n) <= size {
      n := n + 1;
      GridOrder(0.0, step, n - 1, n - 1);
    }
    GridOrder(0.0, step, n - 1, n - 1);
    GridOrder(0.0, step, 1, 1);
  }

  lemma EvaluatesGrid(ts: seq<real>, size: real, step: real, moments: seq<real>, times: seq<real>)
    requires ts != [] && ts[|ts| - 1] - ts[0] > step
    requires WholeSchedule(ts, size, step, moments) && times == Inhabited(ts, size, moments[..|moments| - 1])
    ensures Evaluates(ts, size, step, times)
  {
  }

  lemma ThreeCounts(r: real, e: real, size: real)
    requires 0.0 <= r <= e && e - r <= SHORT_WINDOW && e - r > size && e > size > 0.0
    ensures CountIn([0.0, r, e], e, SHORT_WINDOW) >= 2 && CountIn([0.0, r, e], e, size) == 1
  {
    assert [0.0, r, e][..2] == [0.0, r];
    CountTwo(0.0, r, e, SHORT_WINDOW);
    CountTwo(0.0, r, e, size);
  }

  /** Without idle gaps the schedule is the grid. */
  lemma GridSchedule(size: real, step: real, r: real, n: nat) returns (moments: seq<real>)
    requires 0.0 < step <= size && n > 0 && 0.0 <= r <= step && r <= Grid(0.0, step, n)
    requires size < Grid(0.0, step, n) <= size + step
    ensures WholeSchedule([0.0, r, Grid(0.0, step, n)], size, step, moments)
    ensures |moments| == n + 2 && forall i :: 0 <= i < |moments| ==> moments[i] == Grid(0.0, step, i + 1)
  {
    hide Grid, IdleAfter;
    var e := Grid(0.0, step, n);
    var ts := [0.0, r, e];
    moments := seq(n + 2, i requires 0 <= i => Grid(0.0, step, i + 1));
    GridOrder(0.0, step, 0, 0);
    forall i | 0 < i < |moments| ensures NextMoment(ts, size, step, moments[i - 1], moments[i]) {
      GridOrder(0.0, step, i, i);
      GridOrder(0.0, step, 1, i);
      if i < n {
        GridOrder(0.0, step, 1, i);
        NeverIdle(r, e, size, step, moments[i - 1]);
      } else {
        GridOrder(0.0, step, n, i);
        NeverIdle(r, e, size, step, moments[i - 1]);
      }
    }
    forall i | 0 <= i < |moments| ensures moments[i] <= e + step <==> i < |moments| - 1 {
      GridOrder(0.0, step, n, n);
      GridOrder(0.0, step, n + 1, n + 1);
      if i <= n {
        GridOrder(0.0, step, i + 1, n + 1);
      }
    }
  }

  lemma NeverIdle(r: real, e: real, size: real, step: real, end: real)
    requires size > 0.0 && 0.0 <= r <= step && step <= end && e <= size + step
    ensures !IdleAfter([0.0, r, e], end, size)
  {
    if e > end {
      assert [0.0, r, e][2] == e;
    }
  }

  lemma {:induction false} InhabitedMember(ts: seq<real>, size: real, moments: seq<real>, i: nat) returns (k: nat)
    requires i < |moments| && HasRequests(ts, moments[i], size)
    ensures k < |Inhabited(ts, size, moments)| && Inhabited(ts, size, moments)[k] == moments[i]
  {
    hide HasRequests;
    var front := moments[..|moments| - 1];
    if i == |moments| - 1 {
      k := |Inhabited(ts, size, front)|;
    } else {
      k := InhabitedMember(ts, size, front, i);
    }
  }

  /** In every window that is evaluated, the ten-second count is at most the window count. */
  ghost predicate CountsNest(size: real, step: real) {
    forall ts: seq<real>, times: seq<real>, k: nat ::
      ts != [] && Sorted(ts) && Evaluates(ts, size, step, times) && k < |times| ==>
        CountIn(ts, times[k], 10.0) <= CountIn(ts, times[k], size)
  }

  /** That holds for all logs if and only if the window is at least ten seconds long, whatever the step;
      the extractor accepts shorter windows, too. */
  lemma CountsNestExactly(size: real, step: real)
    requires size > 0.0 && step > 0.0
    ensures CountsNest(size, step) <==> size >= 10.0
  {
    hide Evaluates, CountIn;
    if size >= SHORT_WINDOW {
      forall ts: seq<real>, end: real ensures CountIn(ts, end, SHORT_WINDOW) <= CountIn(ts, end, size) {
        WiderCountsMore(ts, end, SHORT_WINDOW, size);
      }
    } else if size < step {
      var ts, times := TwoRequests(size, step);
      assert CountIn(ts, times[0], SHORT_WINDOW) > CountIn(ts, times[0], size);
    } else {
      var ts, times, k := ThreeRequests(size, step);
      assert CountIn(ts, times[k], SHORT_WINDOW) > CountIn(ts, times[k], size);
    }
  }
}
