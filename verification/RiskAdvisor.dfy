/** core/forecasting/risk_advisor.go and the forecast-aware policy of core/decision/decision_engine.go:
    a forecast may strengthen what the threshold policy decides and never weakens it. */
module RiskAdvisor {
  import opened Common
  import opened Decision
  import opened Forecaster

  // ---------- fusion ----------

  predicate SurgeForecast(fc: Forecast)
    requires fc.WellFormed()
  {
    exists h :: 0 <= h < HORIZONS && (fc.stages[h] == SURGE || fc.stages[h] == SUSTAINED) && fc.confidences[h] > 0.70
  }

  /** A preemptive throttle applies to requests the policy allows; a preemptive block to any. */
  function Recommended(fc: Forecast, score: real, base: Action): Action
    requires fc.WellFormed()
  {
    if SurgeForecast(fc) && score > 0.50 then BLOCK
    else if fc.stages[0] == ESCALATION && fc.confidences[0] > 0.60 && base == ALLOW then RATE_LIMIT
    else base
  }

  function ThreatLevel(fc: Forecast, score: real, base: Action): string
    requires fc.WellFormed()
  {
    if SurgeForecast(fc) && score > 0.50 then "CRITICAL"
    else if fc.stages[0] == ESCALATION && fc.confidences[0] > 0.60 && base == ALLOW then "HIGH"
    else if fc.stages[0] == RECON && fc.confidences[0] > 0.50 then "ELEVATED"
    else if fc.risk == "CRITICAL" || fc.risk == "HIGH" then fc.risk
    else "NORMAL"
  }

  /** The MITRE ATT&CK techniques that the advisory names. */
  function Techniques(fc: Forecast, score: real, base: Action): seq<string>
    requires fc.WellFormed()
  {
    if SurgeForecast(fc) && score > 0.50 then ["T1498", "T1499"]
    else if fc.stages[0] == ESCALATION && fc.confidences[0] > 0.60 && base == ALLOW then ["T1498.001", "T1499"]
    else if fc.stages[0] == RECON && fc.confidences[0] > 0.50 then ["T1595"]
    else if fc.risk == "CRITICAL" || fc.risk == "HIGH" then ["T1498", "T1499"]
    else []
  }

  /** For any forecast: a request is blocked if and only if the policy does or a surge is credible at some horizon
      and the request is suspicious itself; it is let through if and only if the policy does and the next
      horizon brings no credible escalation either. */
  lemma RecommendedExactly(fc: Forecast, score: real, base: Action)
    requires fc.WellFormed()
    ensures Recommended(fc, score, base) == BLOCK <==>
            base == BLOCK || (score > 0.50 && exists h :: 0 <= h < 3 && fc.stages[h] >= 3 && fc.confidences[h] > 0.70)
    ensures Recommended(fc, score, base) == ALLOW <==>
            && base == ALLOW && !(fc.stages[0] == 2 && fc.confidences[0] > 0.60)
            && (score <= 0.50 || forall h :: 0 <= h < 3 && fc.stages[h] >= 3 ==> fc.confidences[h] <= 0.70)
  {
    assert forall h :: 0 <= h < 3 ==> (fc.stages[h] >= 3 <==> fc.stages[h] == SURGE || fc.stages[h] == SUSTAINED);
  }

  /** An advisory names techniques exactly when its threat level is not NORMAL, and a strengthened action
      always comes with both: with CRITICAL when it blocks, with HIGH when it throttles. */
  lemma ThreatHasTechniques(fc: Forecast, score: real, base: Action)
    requires fc.WellFormed()
    ensures ThreatLevel(fc, score, base) == "NORMAL" <==> Techniques(fc, score, base) == []
    ensures Recommended(fc, score, base) != base ==> Techniques(fc, score, base) != []
    ensures Recommended(fc, score, base) != base ==>
            ThreatLevel(fc, score, base) == if Recommended(fc, score, base) == BLOCK then "CRITICAL" else "HIGH"
  {
  }

  function Fused(policy: ThresholdPolicy, fc: Forecast, score: real): Action
    requires fc.WellFormed()
  {
    Recommended(fc, score, policy.Evaluate(score))
  }

  /** Whatever is forecast, protection is never weakened, and for a fixed forecast a higher anomaly score
      never gets a weaker action. */
  lemma FusedMonotone(policy: ThresholdPolicy, fc: Forecast, low: real, high: real)
    requires fc.WellFormed() && low <= high
    ensures policy.Evaluate(low) <= Fused(policy, fc, low) <= Fused(policy, fc, high)
  {
    policy.EvaluateMonotone(low, high);
  }

  lemma OutlookSurge(newest: real, now: int)
    ensures Outlook(newest, now).WellFormed()
    ensures SurgeForecast(Outlook(newest, now)) <==> newest > 0.65
  {
    var fc := Outlook(newest, now);
    if newest > 0.85 {
      assert fc.stages[0] == SURGE && fc.confidences[0] > 0.70;
    } else if newest > 0.65 {
      assert fc.stages[1] == SURGE && fc.confidences[1] > 0.70;
    }
  }

  /** With the fallback forecast the fused action is a table in two scores: the newest in the history and
      that of the request. */
  lemma FallbackFusedExactly(policy: ThresholdPolicy, newest: real, now: int, score: real)
    ensures Outlook(newest, now).WellFormed()
    ensures Fused(policy, Outlook(newest, now), score) ==
            if policy.Evaluate(score) == BLOCK || (newest > 0.65 && score > 0.50) then BLOCK
            else if policy.Evaluate(score) == RATE_LIMIT || (0.65 < newest && newest <= 0.85) then RATE_LIMIT
            else ALLOW
  {
    OutlookSurge(newest, now);
  }

  /** So are threat level and techniques. A low-scoring request in the surge band is told of the forecast's own
      risk, and so is one in the escalation band that the policy already throttles. */
  lemma FallbackThreatExactly(newest: real, now: int, score: real, base: Action)
    ensures Outlook(newest, now).WellFormed()
    ensures var fc := Outlook(newest, now);
      (ThreatLevel(fc, score, base), Techniques(fc, score, base)) ==
        if newest <= 0.40 then ("NORMAL", [])
        else if newest <= 0.65 then ("ELEVATED", ["T1595"])
        else if newest <= 0.85 && score <= 0.50 && base == ALLOW then ("HIGH", ["T1498.001", "T1499"])
        else ("CRITICAL", ["T1498", "T1499"])
  {
    OutlookSurge(newest, now);
  }

  /** The action is not monotone in the history. A worse newest score weakens it exactly when it moves the
      history from the escalation band into the surge band while the request itself scores low. */
  lemma WorseHistoryWeakensExactly(policy: ThresholdPolicy, low: real, high: real, now: int, score: real)
    requires low <= high
    ensures Outlook(low, now).WellFormed() && Outlook(high, now).WellFormed()
    ensures Fused(policy, Outlook(high, now), score) < Fused(policy, Outlook(low, now), score) <==>
            && 0.65 < low && low <= 0.85 && 0.85 < high
            && score <= 0.50 && policy.Evaluate(score) == ALLOW
  {
    FallbackFusedExactly(policy, low, now, score);
    FallbackFusedExactly(policy, high, now, score);
  }

  // ---------- the advisor ----------

  datatype RiskAdvisory = RiskAdvisory(
    threatLevel: string, action: Action, score: real, stages: seq<string>, confidences: seq<real>,
    leadSeconds: int, techniques: seq<string>, timestamp: int)

  function Baseline(score: real, base: Action, now: int): RiskAdvisory {
    RiskAdvisory("NORMAL", base, score, ["NORMAL", "NORMAL", "NORMAL"], [0.95, 0.90, 0.85], 0, [], now)
  }

  function Advice(fc: Forecast, score: real, base: Action, now: int): RiskAdvisory
    requires fc.WellFormed()
  {
    RiskAdvisory(ThreatLevel(fc, score, base), Recommended(fc, score, base), score, fc.names, fc.confidences,
                 fc.leadSeconds, Techniques(fc, score, base), now)
  }

  /** The advisory without a forecast is the advice of a quiet one: nothing is strengthened, nothing threatens. */
  lemma BaselineIsQuietAdvice(score: real, base: Action, now: int, predicted: int)
    ensures Quiet(predicted).WellFormed() && Advice(Quiet(predicted), score, base, now) == Baseline(score, base, now)
    ensures Baseline(score, base, now).action == base && Baseline(score, base, now).threatLevel == "NORMAL"
  {
  }

  method HasSurge(fc: Forecast) returns (hasSurge: bool)
    requires fc.WellFormed()
    ensures hasSurge <==> SurgeForecast(fc)
  {
    hasSurge := false;
    for h := 0 to HORIZONS
      invariant hasSurge <==>
        exists g :: 0 <= g < h && (fc.stages[g] == SURGE || fc.stages[g] == SUSTAINED) && fc.confidences[g] > 0.70
    {
      if (fc.stages[h] == SURGE || fc.stages[h] == SUSTAINED) && fc.confidences[h] > 0.70 {
        hasSurge := true;
      }
    }
  }

  /** The readings of the clock in one assessment: at its start, under the read lock, under the write lock,
      by the forecaster, and when the forecast is stored. */
  datatype Clock = Clock(start: int, checked: int, locked: int, predicted: int, finished: int) {
    predicate Ordered() {
      start <= checked <= locked <= predicted <= finished
    }
  }

  class RiskAdvisor {
    const forecaster: Forecaster?
    var latestAdvisory: RiskAdvisory
    var cachedForecast: Option<Forecast>
    var lastForecast: int
    var cacheTTL: int

    // The history, and the outcome of the session, from which the cached forecast was made.
    ghost var basis: seq<StateSnapshot>
    ghost var basisOutcome: Outcome

    ghost function Footprint(): set<object>
      reads this
    {
      {this} + if forecaster == null then {} else {forecaster, forecaster.buffer, forecaster.buffer.data}
    }

    /** This forecast is true of an earlier history, and was made no later than lastForecast. */
    ghost predicate Founded(fc: Forecast)
      requires forecaster != null
      reads this, Footprint()
    {
      && basisOutcome.Shaped() && fc.WellFormed()
      && basis <= forecaster.buffer.log
      && IsPrediction(basis, basisOutcome, forecaster.exp, fc.timestamp, fc)
      && fc.timestamp <= lastForecast
    }

    /** What every section under the lock keeps. */
    ghost predicate Valid()
      reads this, Footprint()
    {
      && (forecaster != null ==> forecaster.Valid())
      && (forecaster == null ==> cachedForecast.None?)
      && (cachedForecast.Some? ==> Founded(cachedForecast.value))
    }

    constructor (forecaster: Forecaster?, cacheTTL: int, now: int)
      requires forecaster != null ==> forecaster.Valid()
      ensures Valid() && this.forecaster == forecaster && this.cacheTTL == cacheTTL && cachedForecast == None
    {
      this.forecaster, this.cacheTTL := forecaster, cacheTTL;
      latestAdvisory := Baseline(0.0, ALLOW, now);
      cachedForecast, lastForecast := None, now;
      basis, basisOutcome := [], NotLoaded;
    }

    predicate CacheLive(now: int)
      reads this
    {
      cachedForecast.Some? && cacheTTL > 0 && now - lastForecast < cacheTTL
    }

    /** The section under the read lock. */
    method TryCached(now: int) returns (fc: Option<Forecast>)
      requires Valid()
      ensures fc == if CacheLive(now) then cachedForecast else None
      ensures fc.Some? <==> cachedForecast.Some? && cacheTTL > 0 && now - lastForecast < cacheTTL
      ensures fc.Some? ==> Founded(fc.value)
    {
      if CacheLive(now) {
        return cachedForecast;
      }
      return None;
    }

    /** The section under the write lock, whatever happened since the read lock was released: the cache is
        checked once more. None is the error without a forecaster. */
    method Refresh(model: Option<Session>, clock: Clock) returns (fc: Option<Forecast>, failed: bool)
      requires Valid() && Usable(model) && clock.Ordered()
      modifies this`cachedForecast, this`lastForecast, this`basis, this`basisOutcome
      ensures Valid() && cachedForecast == fc
      ensures fc.None? <==> forecaster == null
      ensures fc.None? ==> failed
      ensures fc.Some? ==> Founded(fc.value)
      ensures old(CacheLive(clock.locked)) ==>
                fc == old(cachedForecast) && lastForecast == old(lastForecast) && basis == old(basis)
      ensures !old(CacheLive(clock.locked)) && forecaster != null ==>
                && lastForecast == clock.finished && fc.value.timestamp == clock.predicted
                && basis == forecaster.buffer.log && basisOutcome == forecaster.OutcomeFor(model)
    {
      hide IsPrediction, Usable;
      if CacheLive(clock.locked) {
        return cachedForecast, false;
      }
      if forecaster == null {
        return None, true;
      }
      var res;
      res, failed := forecaster.Predict(model, clock.predicted);
      cachedForecast, lastForecast := Some(res), clock.finished;
      basis, basisOutcome := forecaster.buffer.log, forecaster.OutcomeFor(model);
      fc := Some(res);
    }

    /** The forecast returned is true of the history as it stands now, or as it stood when a forecast was
        made less than the cache lifetime ago. */
    method GetOrRefreshForecast(model: Option<Session>, clock: Clock) returns (fc: Option<Forecast>, failed: bool)
      requires Valid() && Usable(model) && clock.Ordered()
      modifies this`cachedForecast, this`lastForecast, this`basis, this`basisOutcome
      ensures Valid() && cachedForecast == fc
      ensures fc.None? <==> forecaster == null
      ensures fc.None? ==> failed
      ensures fc.Some? ==> Founded(fc.value)
      ensures old(CacheLive(clock.checked)) ==>
                fc == old(cachedForecast) && lastForecast == old(lastForecast) && basis == old(basis)
      ensures !old(CacheLive(clock.checked)) && forecaster != null ==>
                lastForecast == clock.finished && basis == forecaster.buffer.log
      ensures cacheTTL <= 0 && forecaster != null ==> basis == forecaster.buffer.log
    {
      hide IsPrediction, Usable;
      fc := TryCached(clock.checked);
      if fc.Some? {
        return fc, false;
      }
      fc, failed := Refresh(model, clock);
    }

    /** The advisory follows from the forecast in the cache; without a forecaster the base action stands. */
    method Assess(score: real, base: Action, model: Option<Session>, clock: Clock) returns (advisory: RiskAdvisory)
      requires Valid() && Usable(model) && clock.Ordered()
      modifies this
      ensures Valid() && cacheTTL == old(cacheTTL) && latestAdvisory == advisory
      ensures cachedForecast.None? <==> forecaster == null
      ensures cachedForecast.None? ==> advisory == Baseline(score, base, clock.start)
      ensures cachedForecast.Some? ==> advisory == Advice(cachedForecast.value, score, base, clock.start)
      ensures forecaster != null ==>
                if old(CacheLive(clock.checked)) then lastForecast == old(lastForecast) && basis == old(basis)
                else lastForecast == clock.finished && basis == forecaster.buffer.log
      ensures advisory.score == score && advisory.timestamp == clock.start
      ensures cachedForecast.Some? ==>
                && advisory.stages == cachedForecast.value.names
                && advisory.confidences == cachedForecast.value.confidences
                && advisory.leadSeconds == cachedForecast.value.leadSeconds
      ensures advisory.action >= base
    {
      hide SurgeForecast, IsPrediction, Usable;
      advisory := Baseline(score, base, clock.start);
      if forecaster == null {
        latestAdvisory := advisory;
        return;
      }
      var forecast, failed := GetOrRefreshForecast(model, clock);
      var fc := forecast.value;
      advisory := advisory.(stages := fc.names, confidences := fc.confidences, leadSeconds := fc.leadSeconds,
                            threatLevel := fc.risk);
      var hasSurge := HasSurge(fc);
      if hasSurge && score > 0.50 {
        advisory := advisory.(action := BLOCK, threatLevel := "CRITICAL", techniques := ["T1498", "T1499"]);
      } else if fc.stages[0] == ESCALATION && fc.confidences[0] > 0.60 && base == ALLOW {
        advisory := advisory.(action := RATE_LIMIT, threatLevel := "HIGH", techniques := ["T1498.001", "T1499"]);
      } else if fc.stages[0] == RECON && fc.confidences[0] > 0.50 {
        advisory := advisory.(threatLevel := "ELEVATED", techniques := ["T1595"]);
      } else if fc.risk == "CRITICAL" || fc.risk == "HIGH" {
        advisory := advisory.(threatLevel := fc.risk, techniques := ["T1498", "T1499"]);
      } else {
        advisory := advisory.(threatLevel := "NORMAL");
      }
      if advisory.action < base {
        advisory := advisory.(action := base);
      }
      latestAdvisory := advisory;
    }

    /** New telemetry reaches the forecaster's buffer directly; the advisor stays valid. */
    twostate lemma NewStateKeepsValid(snap: StateSnapshot)
      requires old(Valid()) && forecaster != null && forecaster.Valid() && unchanged(this)
      requires forecaster.buffer.log == old(forecaster.buffer.log) + [snap]
      ensures Valid()
    {
    }
  }

  class ForecastAwarePolicy {
    const base: Option<Engine>
    const assessor: RiskAdvisor?

    constructor (base: Option<Engine>, assessor: RiskAdvisor?)
      ensures this.base == base && this.assessor == assessor
    {
      this.base, this.assessor := base, assessor;
    }

    function BaseAction(prediction: Prediction): Action {
      if base.None? then ALLOW else base.value(prediction)
    }

    /** Whatever engine is wrapped, the decision is the fusion of its action with the forecast then in the
        cache. */
    method Evaluate(prediction: Prediction, model: Option<Session>, clock: Clock) returns (action: Action)
      requires Usable(model) && clock.Ordered() && (assessor != null ==> assessor.Valid())
      modifies assessor
      ensures assessor != null ==> assessor.Valid()
      ensures action >= BaseAction(prediction)
      ensures assessor == null || assessor.forecaster == null ==> action == BaseAction(prediction)
      ensures assessor != null && assessor.forecaster != null ==>
                && assessor.cachedForecast.Some?
                && action == Recommended(assessor.cachedForecast.value, prediction.anomalyScore, BaseAction(prediction))
    {
      var baseAction := BaseAction(prediction);
      if assessor == null {
        return baseAction;
      }
      var advisory := assessor.Assess(prediction.anomalyScore, baseAction, model, clock);
      if advisory.action > baseAction {
        return advisory.action;
      }
      return baseAction;
    }
  }
}
