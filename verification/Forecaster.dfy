/** core/forecasting/forecaster.go: a sliding buffer of telemetry snapshots, the
    padded window that a sequence model reads, and forecasts over three horizons. */
module Forecaster {
  import opened Common
  import opened LinearAlgebra
  import MarkovChain

  const NORMAL: nat := 0
  const RECON: nat := 1
  const ESCALATION: nat := 2
  const SURGE: nat := 3
  const SUSTAINED: nat := 4

  const STAGE_NAMES: seq<string> := ["NORMAL", "RECON", "ESCALATION", "SURGE", "SUSTAINED"]

  const HORIZONS: nat := 3
  const DEFAULT_BUFFER: nat := 30

  const FEATURES: nat := 6

  datatype StateSnapshot = StateSnapshot(
    requests10s: real, requests60s: real, endpointEntropy: real, latencySpike: real, errorRate: real,
    requestVariance: real, anomalyScore: real)
  {
    /** The features in the order in which the model was trained. */
    function Raw(): (raw: seq<real>)
      ensures |raw| == FEATURES
    {
      [requests10s, requests60s, endpointEntropy, latencySpike, errorRate, requestVariance]
    }
  }

  const ZERO_SNAPSHOT := StateSnapshot(0.0, 0.0, 0.0, 0.0, 0.0, 0.0, 0.0)

  datatype Forecast = Forecast(
    names: seq<string>, stages: seq<nat>, confidences: seq<real>, probabilities: seq<seq<real>>,
    risk: string, leadSeconds: int, timestamp: int)
  {
    predicate WellFormed() {
      |stages| == |confidences| == |names| == HORIZONS && forall h :: 0 <= h < HORIZONS ==> stages[h] < |STAGE_NAMES|
    }
  }

  // ---------- risk and lead time ----------

  predicate SurgeAt(stages: seq<nat>, confs: seq<real>, h: nat)
    requires h < |stages| == |confs|
  {
    (stages[h] == SURGE || stages[h] == SUSTAINED) && confs[h] >= 0.50
  }

  predicate WarnAt(stages: seq<nat>, confs: seq<real>, h: nat)
    requires h < |stages| == |confs|
  {
    stages[h] == ESCALATION || (stages[h] == RECON && confs[h] >= 0.50)
  }

  /** The risk that the stages carry: decided by the first credible surge, or without one by the first
      horizon with a warning, whatever comes after it. */
  ghost predicate IsRisk(stages: seq<nat>, confs: seq<real>, risk: string, lead: int)
    requires |stages| == |confs| == HORIZONS
  {
    if exists h :: 0 <= h < HORIZONS && SurgeAt(stages, confs, h) then
      exists h :: 0 <= h < HORIZONS && SurgeAt(stages, confs, h)
               && (forall g :: 0 <= g < h ==> !SurgeAt(stages, confs, g))
               && lead == 10 * (h + 1)
               && risk == if stages[0] == SURGE || stages[0] == SUSTAINED || confs[h] >= 0.70 then "CRITICAL"
                          else "HIGH"
    else if exists h :: 0 <= h < HORIZONS && WarnAt(stages, confs, h) then
      exists h :: 0 <= h < HORIZONS && WarnAt(stages, confs, h)
               && (forall g :: 0 <= g < h ==> !WarnAt(stages, confs, g))
               && lead == 0
               && risk == if stages[h] == ESCALATION && confs[h] >= 0.60 then "HIGH" else "ELEVATED"
    else lead == 0 && risk == "LOW"
  }

  method ComputeRiskAndLeadTime(stages: seq<nat>, confs: seq<real>) returns (risk: string, lead: int)
    requires |stages| == |confs| == HORIZONS
    ensures IsRisk(stages, confs, risk, lead)
  {
    var hasSurge, surgeHorizon := false, -1;
    for h := 0 to HORIZONS
      invariant hasSurge <==> exists g :: 0 <= g < h && SurgeAt(stages, confs, g)
      invariant if hasSurge then 1 <= surgeHorizon <= h && SurgeAt(stages, confs, surgeHorizon - 1)
                                 && forall g :: 0 <= g < surgeHorizon - 1 ==> !SurgeAt(stages, confs, g)
                else surgeHorizon == -1
    {
      if SurgeAt(stages, confs, h) {
        hasSurge := true;
        if surgeHorizon == -1 {
          surgeHorizon := h + 1;
        }
      }
    }
    lead := if surgeHorizon > 0 then surgeHorizon * 10 else 0;
    if hasSurge {
      if stages[0] == SURGE || stages[0] == SUSTAINED || confs[surgeHorizon - 1] >= 0.70 {
        return "CRITICAL", lead;
      }
      return "HIGH", lead;
    }
    for h := 0 to HORIZONS
      invariant forall g :: 0 <= g < h ==> !WarnAt(stages, confs, g)
    {
      if stages[h] == ESCALATION && confs[h] >= 0.60 {
        assert WarnAt(stages, confs, h);
        return "HIGH", 0;
      }
      if WarnAt(stages, confs, h) {
        return "ELEVATED", 0;
      }
    }
    return "LOW", 0;
  }

  /** The stages and confidences determine the answer. */
  lemma RiskIsUnique(stages: seq<nat>, confs: seq<real>, r1: string, l1: int, r2: string, l2: int)
    requires |stages| == |confs| == HORIZONS
    requires IsRisk(stages, confs, r1, l1) && IsRisk(stages, confs, r2, l2)
    ensures r1 == r2 && l1 == l2
  {
  }

  // ---------- when worse stages lower the risk ----------

  function Rank(risk: string): nat {
    if risk == "CRITICAL" then 3 else if risk == "HIGH" then 2 else if risk == "ELEVATED" then 1 else 0
  }

  /** The first horizon with a credible surge, or HORIZONS without one. */
  function FirstSurge(stages: seq<nat>, confs: seq<real>): nat
    requires |stages| == |confs| == HORIZONS
  {
    if SurgeAt(stages, confs, 0) then 0
    else if SurgeAt(stages, confs, 1) then 1
    else if SurgeAt(stages, confs, 2) then 2
    else HORIZONS
  }

  /** The first horizon with a warning, or HORIZONS without one. */
  function FirstWarning(stages: seq<nat>, confs: seq<real>): nat
    requires |stages| == |confs| == HORIZONS
  {
    if WarnAt(stages, confs, 0) then 0
    else if WarnAt(stages, confs, 1) then 1
    else if WarnAt(stages, confs, 2) then 2
    else HORIZONS
  }

  /** A warning at horizon h that counts as HIGH: an escalation of enough confidence. */
  predicate Alarming(stages: seq<nat>, confs: seq<real>, h: nat)
    requires |stages| == |confs| == HORIZONS
  {
    h < HORIZONS && stages[h] == ESCALATION && confs[h] >= 0.60
  }

  /** The answer, by the first surge and the first warning. */
  lemma RiskByFirsts(stages: seq<nat>, confs: seq<real>, risk: string, lead: int)
    requires |stages| == |confs| == HORIZONS && IsRisk(stages, confs, risk, lead)
    ensures var h, w := FirstSurge(stages, confs), FirstWarning(stages, confs);
      Rank(risk) ==
        if h < HORIZONS && (stages[0] == SURGE || stages[0] == SUSTAINED || confs[h] >= 0.70) then 3
        else if h < HORIZONS || Alarming(stages, confs, w) then 2
        else if w < HORIZONS then 1 else 0
  {
    assert SurgeAt(stages, confs, 0) || SurgeAt(stages, confs, 1) || SurgeAt(stages, confs, 2) ||
           forall h :: 0 <= h < HORIZONS ==> !SurgeAt(stages, confs, h);
    assert WarnAt(stages, confs, 0) || WarnAt(stages, confs, 1) || WarnAt(stages, confs, 2) ||
           forall h :: 0 <= h < HORIZONS ==> !WarnAt(stages, confs, h);
  }

  /** The three ways in which raising stages lowers the risk: (a) an earlier surge of less confidence
      takes over from one of at least 0.70, while the first horizon is still below SURGE; (b) the first
      warning was an alarming escalation and is not one any more; (c) the only warnings became surges that
      are too uncertain to count. */
  predicate Masks(s: seq<nat>, t: seq<nat>, confs: seq<real>)
    requires |s| == |t| == |confs| == HORIZONS
  {
    var h, g := FirstSurge(s, confs), FirstSurge(t, confs);
    var v, w := FirstWarning(s, confs), FirstWarning(t, confs);
    || (h < HORIZONS && g < HORIZONS && t[0] < SURGE && confs[g] < 0.70 && confs[h] >= 0.70)
    || (g == HORIZONS && w < HORIZONS && Alarming(s, confs, v) && !Alarming(t, confs, w))
    || (g == HORIZONS && w == HORIZONS && v < HORIZONS)
  }

  /** Risk is monotone in the stages except exactly then. */
  lemma RiskDropsExactly(s: seq<nat>, t: seq<nat>, confs: seq<real>, rs: string, ls: int, rt: string, lt: int)
    requires |s| == |t| == |confs| == HORIZONS
    requires forall h :: 0 <= h < HORIZONS ==> s[h] <= t[h] <= SUSTAINED
    requires IsRisk(s, confs, rs, ls) && IsRisk(t, confs, rt, lt)
    ensures Rank(rt) < Rank(rs) <==> Masks(s, t, confs)
  {
    hide IsRisk, Rank;
    RiskByFirsts(s, confs, rs, ls);
    RiskByFirsts(t, confs, rt, lt);
    assert forall h :: 0 <= h < HORIZONS ==> (SurgeAt(s, confs, h) ==> SurgeAt(t, confs, h));
  }

  // Each of the three ways occurs.

  lemma EarlySurgeMasksSurge()
    ensures IsRisk([0, 0, 3], [0.9, 0.6, 0.8], "CRITICAL", 30)
    ensures IsRisk([0, 3, 3], [0.9, 0.6, 0.8], "HIGH", 20)
  {
    assert SurgeAt([0, 0, 3], [0.9, 0.6, 0.8], 2) && SurgeAt([0, 3, 3], [0.9, 0.6, 0.8], 1);
  }

  lemma ReconMasksEscalation()
    ensures IsRisk([0, 2, 2], [0.9, 0.8, 0.7], "HIGH", 0)
    ensures IsRisk([1, 2, 2], [0.9, 0.8, 0.7], "ELEVATED", 0)
  {
    assert WarnAt([0, 2, 2], [0.9, 0.8, 0.7], 1) && WarnAt([1, 2, 2], [0.9, 0.8, 0.7], 0);
  }

  lemma DoubtfulSurgeMasksEscalation()
    ensures IsRisk([2, 0, 0], [0.4, 0.4, 0.4], "ELEVATED", 0)
    ensures IsRisk([3, 0, 0], [0.4, 0.4, 0.4], "LOW", 0)
  {
    assert WarnAt([2, 0, 0], [0.4, 0.4, 0.4], 0);
  }

  // ---------- the fallback forecast ----------

  function Spike(stage: nat, confidence: real): seq<real> {
    seq(|STAGE_NAMES|, s => if s == stage then confidence else 0.0)
  }

  /** What the fallback says, for each range of the newest anomaly score. */
  function Outlook(score: real, now: int): Forecast {
    if score > 0.85 then
      Forecast(["SURGE", "SUSTAINED", "SUSTAINED"], [SURGE, SUSTAINED, SUSTAINED], [0.9, 0.8, 0.7],
               [Spike(SURGE, 0.9), Spike(SUSTAINED, 0.8), Spike(SUSTAINED, 0.7)], "CRITICAL", 10, now)
    else if score > 0.65 then
      Forecast(["ESCALATION", "SURGE", "SURGE"], [ESCALATION, SURGE, SURGE], [0.9, 0.8, 0.7],
               [Spike(ESCALATION, 0.9), Spike(SURGE, 0.8), Spike(SURGE, 0.7)], "CRITICAL", 20, now)
    else if score > 0.40 then
      Forecast(["RECON", "RECON", "RECON"], [RECON, RECON, RECON], [0.9, 0.8, 0.7],
               [Spike(RECON, 0.9), Spike(RECON, 0.8), Spike(RECON, 0.7)], "ELEVATED", 0, now)
    else
      Forecast(["NORMAL", "NORMAL", "NORMAL"], [NORMAL, NORMAL, NORMAL], [0.9, 0.8, 0.7],
               [Spike(NORMAL, 0.9), Spike(NORMAL, 0.8), Spike(NORMAL, 0.7)], "LOW", 0, now)
  }

  /** What an empty history is forecast as. */
  function Quiet(now: int): Forecast {
    Forecast(["NORMAL", "NORMAL", "NORMAL"], [NORMAL, NORMAL, NORMAL], [0.95, 0.90, 0.85],
             [Spike(NORMAL, 0.0), Spike(NORMAL, 0.0), Spike(NORMAL, 0.0)], "LOW", 0, now)
  }

  /** It is quiet: no stage but NORMAL at any horizon, named and rated as such, with no class probabilities. */
  lemma QuietIsNormal(now: int)
    ensures var fc := Quiet(now);
      && fc.WellFormed() && fc.stages == [0, 0, 0] && IsRisk(fc.stages, fc.confidences, fc.risk, fc.leadSeconds)
      && fc.risk == "LOW" && |fc.probabilities| == 3
      && forall h :: 0 <= h < 3 ==>
        fc.names[h] == STAGE_NAMES[fc.stages[h]] && fc.probabilities[h] == [0.0, 0.0, 0.0, 0.0, 0.0]
  {
    var fc := Quiet(now);
    assert forall h :: 0 <= h < 3 ==>
      !SurgeAt(fc.stages, fc.confidences, h) && !WarnAt(fc.stages, fc.confidences, h);
  }

  function Max(x: real, y: real): real {
    if x >= y then x else y
  }

  lemma OutlookRisk(score: real, now: int, risk: string, lead: int)
    requires IsRisk(Outlook(score, now).stages, [0.9, 0.8, 0.7], risk, lead)
    ensures risk == Outlook(score, now).risk && lead == Outlook(score, now).leadSeconds
  {
    var stages, confs := Outlook(score, now).stages, [0.9, 0.8, 0.7];
    if score > 0.85 {
      assert SurgeAt(stages, confs, 0);
    } else if score > 0.65 {
      assert !SurgeAt(stages, confs, 0) && SurgeAt(stages, confs, 1);
    } else if score > 0.40 {
      assert WarnAt(stages, confs, 0);
    }
  }

  /** The stage of an anomaly score, and how it is expected to progress. */
  function StageAt(score: real, h: nat): (stage: nat)
    ensures stage < |STAGE_NAMES|
  {
    if score > 0.85 then if h == 0 then SURGE else SUSTAINED
    else if score > 0.65 then if h == 0 then ESCALATION else SURGE
    else if score > 0.40 then RECON else NORMAL
  }

  function ConfidenceAt(h: nat): real {
    Max(0.50, 0.90 - h as real * 0.10)
  }

  /** Results that agree with the progression at each horizon make up the outlook. */
  lemma OutlookFrom(fc: Forecast, score: real)
    requires |fc.names| == |fc.stages| == |fc.confidences| == |fc.probabilities| == HORIZONS
    requires forall h :: 0 <= h < HORIZONS ==>
      fc.stages[h] == StageAt(score, h) && fc.names[h] == STAGE_NAMES[StageAt(score, h)]
    requires forall h :: 0 <= h < HORIZONS ==>
      fc.confidences[h] == ConfidenceAt(h) && fc.probabilities[h] == Spike(StageAt(score, h), ConfidenceAt(h))
    requires IsRisk(fc.stages, fc.confidences, fc.risk, fc.leadSeconds)
    ensures fc == Outlook(score, fc.timestamp)
  {
    hide IsRisk, Spike;
    assert ConfidenceAt(0) == 0.9 && ConfidenceAt(1) == 0.8 && ConfidenceAt(2) == 0.7;
    assert fc.confidences == [0.9, 0.8, 0.7];
    var goal := Outlook(score, fc.timestamp);
    assert fc.names == goal.names && fc.stages == goal.stages && fc.probabilities == goal.probabilities;
    OutlookRisk(score, fc.timestamp, fc.risk, fc.leadSeconds);
  }

  lemma OutlookWellFormed(score: real, now: int)
    ensures Outlook(score, now).WellFormed() && Outlook(score, now).timestamp == now
  {
  }

  // ---------- the model's logits ----------

  ghost predicate MultipliesAt(exp: real -> real, x: real, y: real) {
    exp(x + y) == Times(exp(x), exp(y))
  }

  /** What an exponential does: it is positive, increasing, and turns sums into products. */
  ghost predicate ExpLike(exp: real -> real) {
    && (forall x :: exp(x) > 0.0)
    && (forall x, y :: x < y ==> exp(x) < exp(y))
    && (forall x, y :: MultipliesAt(exp, x, y))
  }

  /** One horizon: a distribution in which the stages stand in the ratio of the exponentials of their logits, and
      the first most likely stage. */
  ghost predicate IsSoftmax(exp: real -> real, logits: seq<real>, probs: seq<real>, best: nat) {
    && |probs| == |logits| && best < |logits|
    && Distribution(probs)
    && (forall s, t :: 0 <= s < |logits| && 0 <= t < |logits| ==>
          Times(probs[s], exp(logits[t])) == Times(probs[t], exp(logits[s])))
    && (forall s :: 0 <= s < |logits| ==> probs[s] <= probs[best] && logits[s] <= logits[best])
    && (forall s :: 0 <= s < best ==> logits[s] < logits[best])
    && (forall s, t :: 0 <= s < |logits| && 0 <= t < |logits| ==> (probs[s] < probs[t] <==> logits[s] < logits[t]))
  }

  function Exponentials(exp: real -> real, logits: seq<real>): (es: seq<real>)
    ensures |es| == |logits| && forall s :: 0 <= s < |es| ==> es[s] == exp(logits[s])
  {
    seq(|logits|, s requires 0 <= s < |logits| => exp(logits[s]))
  }

  /** Hence every probability is the exponential of its logit divided by the sum of all of them. */
  lemma SoftmaxIsQuotient(exp: real -> real, logits: seq<real>, probs: seq<real>, best: nat, t: nat)
    requires ExpLike(exp) && IsSoftmax(exp, logits, probs, best) && t < |logits|
    ensures Times(probs[t], Sum(Exponentials(exp, logits))) == exp(logits[t])
    ensures Sum(Exponentials(exp, logits)) > 0.0
  {
    hide Times;
    var es := Exponentials(exp, logits);
    var r := Scaled(exp(logits[t]), probs);
    SumScale(probs, r, exp(logits[t]));
    forall s | 0 <= s < |es| ensures r[s] == Times(probs[t], es[s]) {
      TimesCommutes(exp(logits[t]), probs[s]);
    }
    SumScale(es, r, probs[t]);
    TimesOne(exp(logits[t]));
    SumNonNegative(es);
  }

  lemma TimesCancels(x: real, y: real, z: real)
    requires z > 0.0 && Times(x, z) == Times(y, z)
    ensures x == y
  {
    assert (x - y) * z == 0.0;
  }

  /** The logits determine the probabilities and the stage. */
  lemma SoftmaxIsUnique(exp: real -> real, logits: seq<real>, p: seq<real>, a: nat, q: seq<real>, b: nat)
    requires ExpLike(exp) && IsSoftmax(exp, logits, p, a) && IsSoftmax(exp, logits, q, b)
    ensures p == q && a == b
  {
    hide Times;
    var total := Sum(Exponentials(exp, logits));
    forall t | 0 <= t < |logits| ensures p[t] == q[t] {
      SoftmaxIsQuotient(exp, logits, p, a, t);
      SoftmaxIsQuotient(exp, logits, q, b, t);
      TimesCancels(p[t], q[t], total);
    }
  }

  /** Adding a constant to all logits changes nothing, which is why the largest may be subtracted. */
  lemma SoftmaxIgnoresShift(exp: real -> real, logits: seq<real>, shifted: seq<real>, c: real,
        probs: seq<real>, best: nat)
    requires ExpLike(exp) && |shifted| == |logits|
    requires forall s :: 0 <= s < |logits| ==> shifted[s] == logits[s] + c
    requires IsSoftmax(exp, logits, probs, best)
    ensures IsSoftmax(exp, shifted, probs, best)
  {
    hide Times, Distribution;
    forall s, t | 0 <= s < |logits| && 0 <= t < |logits|
      ensures Times(probs[s], exp(shifted[t])) == Times(probs[t], exp(shifted[s]))
    {
      assert MultipliesAt(exp, logits[s], c) && MultipliesAt(exp, logits[t], c);
      TimesAssociates(probs[s], exp(logits[t]), exp(c));
      TimesAssociates(probs[t], exp(logits[s]), exp(c));
    }
  }

  lemma TimesAssociates(x: real, y: real, z: real)
    ensures Times(x, Times(y, z)) == Times(Times(x, y), z)
  {
  }

  /** Quotients of shifted exponentials are in the ratio of the exponentials. */
  lemma QuotientsInRatio(exp: real -> real, x: real, y: real, shift: real, p: real, q: real, total: real)
    requires ExpLike(exp) && total > 0.0 && p == exp(x - shift) / total && q == exp(y - shift) / total
    ensures Times(p, exp(y)) == Times(q, exp(x))
  {
    var e, f, k := exp(x - shift), exp(y - shift), exp(shift);
    assert MultipliesAt(exp, x - shift, shift) && MultipliesAt(exp, y - shift, shift);
    assert exp(x) == Times(e, k) && exp(y) == Times(f, k);
    MarkovChain.QuotientsInProportion(e, f, total);
    TimesAssociates(p, f, k);
    TimesAssociates(q, e, k);
  }

  lemma DivideOrdered(x: real, y: real, total: real)
    requires total > 0.0
    ensures x / total < y / total <==> x < y
    ensures x > 0.0 ==> x / total > 0.0
  {
    assert x / total * total == x && y / total * total == y;
  }

  lemma QuotientsOrdered(logits: seq<real>, shift: real, exp: real -> real, exps: seq<real>,
        probs: seq<real>, total: real)
    requires ExpLike(exp) && total > 0.0 && |exps| == |logits| == |probs|
    requires forall s :: 0 <= s < |logits| ==> exps[s] == exp(logits[s] - shift) && probs[s] == exps[s] / total
    ensures forall s, t :: 0 <= s < |logits| && 0 <= t < |logits| ==> (probs[s] < probs[t] <==> logits[s] < logits[t])
  {
    forall s, t | 0 <= s < |logits| && 0 <= t < |logits|
      ensures probs[s] < probs[t] <==> logits[s] < logits[t]
    {
      DivideOrdered(exps[s], exps[t], total);
      if logits[s] < logits[t] {
        assert exps[s] < exps[t];
      } else if logits[s] > logits[t] {
        assert exps[s] > exps[t];
      }
    }
  }

  lemma QuotientsRelated(logits: seq<real>, shift: real, exp: real -> real, exps: seq<real>,
        probs: seq<real>, total: real)
    requires ExpLike(exp) && total > 0.0 && |exps| == |logits| == |probs|
    requires forall s :: 0 <= s < |logits| ==> exps[s] == exp(logits[s] - shift) && probs[s] == exps[s] / total
    ensures forall s, t :: 0 <= s < |logits| && 0 <= t < |logits| ==>
      Times(probs[s], exp(logits[t])) == Times(probs[t], exp(logits[s]))
  {
    hide Times;
    forall s, t | 0 <= s < |logits| && 0 <= t < |logits|
      ensures Times(probs[s], exp(logits[t])) == Times(probs[t], exp(logits[s]))
    {
      QuotientsInRatio(exp, logits[s], logits[t], shift, probs[s], probs[t], total);
    }
  }

  /** The division loop: probabilities, the first largest one, and its value. */
  method Normalise(exps: seq<real>, sumExp: real) returns (probs: seq<real>, best: nat, confidence: real)
    requires exps != [] && sumExp > 0.0 && forall s :: 0 <= s < |exps| ==> exps[s] > 0.0
    ensures |probs| == |exps| && forall t :: 0 <= t < |exps| ==> probs[t] == exps[t] / sumExp && probs[t] > 0.0
    ensures best < |exps| && confidence == probs[best]
    ensures forall t :: 0 <= t < |exps| ==> probs[t] <= confidence
    ensures forall t :: 0 <= t < best ==> probs[t] < confidence
  {
    probs, best, confidence := [], 0, 0.0;
    for s := 0 to |exps|
      invariant |probs| == s && forall t :: 0 <= t < s ==> probs[t] == exps[t] / sumExp && probs[t] > 0.0
      invariant if s == 0 then best == 0 && confidence == 0.0 else best < s && confidence == probs[best]
      invariant forall t :: 0 <= t < s ==> probs[t] <= confidence
      invariant forall t :: 0 <= t < best ==> probs[t] < confidence
    {
      DivideOrdered(exps[s], exps[s], sumExp);
      var prob := exps[s] / sumExp;
      probs := probs + [prob];
      if prob > confidence {
        best, confidence := s, prob;
      }
    }
  }

  /** The softmax loops, over logits shifted by the largest one. */
  method Softmax(logits: seq<real>, exp: real -> real) returns (probs: seq<real>, best: nat, confidence: real)
    requires logits != [] && ExpLike(exp)
    ensures IsSoftmax(exp, logits, probs, best)
    ensures best < |logits| == |probs| && confidence == probs[best]
  {
    hide Times, MultipliesAt;
    var maxLogit := logits[0];
    for s := 0 to |logits| {
      if logits[s] > maxLogit {
        maxLogit := logits[s];
      }
    }
    var exps, sumExp := [], 0.0;
    for s := 0 to |logits|
      invariant |exps| == s && sumExp == Sum(exps)
      invariant forall t :: 0 <= t < s ==> exps[t] == exp(logits[t] - maxLogit)
    {
      SumAppend(exps, [exp(logits[s] - maxLogit)]);
      exps := exps + [exp(logits[s] - maxLogit)];
      sumExp := sumExp + exps[s];
    }
    SumNonNegative(exps);
    assert exps[0] > 0.0;
    probs, best, confidence := Normalise(exps, sumExp);
    MarkovChain.DividedByOwnSum(exps, probs, sumExp);
    QuotientsOrdered(logits, maxLogit, exp, exps, probs, sumExp);
    QuotientsRelated(logits, maxLogit, exp, exps, probs, sumExp);
  }

  /** What running the session yields. */
  datatype Outcome = NotLoaded | Failed | Logits(rows: seq<seq<real>>) {
    predicate Shaped() {
      Logits? ==> |rows| == HORIZONS && forall h :: 0 <= h < HORIZONS ==> |rows[h]| == |STAGE_NAMES|
    }
  }

  // ---------- the model's input ----------

  /** A float; None where a division by zero leaves no number. */
  type Cell = Option<real>

  /** The parameters of scaler.json, which may list fewer features than there are. */
  datatype Scaler = Scaler(means: seq<real>, stds: seq<real>, eps: real) {
    function Standard(s: StateSnapshot, feat: nat): Cell
      requires feat < FEATURES
    {
      var m := if feat < |means| then means[feat] else 0.0;
      var sd := if feat < |stds| then stds[feat] else 1.0;
      if sd + eps == 0.0 then None else Some((s.Raw()[feat] - m) / (sd + eps))
    }

    function Row(s: StateSnapshot): (row: seq<Cell>)
      ensures |row| == FEATURES
    {
      seq(FEATURES, feat requires 0 <= feat < FEATURES => Standard(s, feat))
    }

    /** The standardised window, one snapshot after the other. */
    function Flattened(window: seq<StateSnapshot>): (flat: seq<Cell>)
      ensures |flat| == |window| * FEATURES
    {
      if window == [] then [] else Flattened(window[..|window| - 1]) + Row(window[|window| - 1])
    }

    /** Where each feature of each snapshot is found. */
    lemma {:induction false} FlattenedAt(window: seq<StateSnapshot>, i: nat, feat: nat)
      requires i < |window| && feat < FEATURES
      ensures Flattened(window)[i * FEATURES + feat] == Standard(window[i], feat)
    {
      if i == |window| - 1 {
      } else {
        FlattenedAt(window[..|window| - 1], i, feat);
      }
    }

    /** The cell holds x, centred at the listed mean and divided by the listed deviation (0 and 1 beyond the lists);
        it holds no number when there is nothing to divide by. */
    ghost predicate Standardises(cell: Cell, x: real, feat: nat) {
      var m := if feat < |means| then means[feat] else 0.0;
      var divisor := eps + if feat < |stds| then stds[feat] else 1.0;
      if divisor == 0.0 then cell == None else cell.Some? && Times(cell.value, divisor) + m == x
    }

    lemma CellAt(window: seq<StateSnapshot>, i: nat, feat: nat)
      requires i < |window| && feat < 6
      ensures 6 * i + feat < |Flattened(window)|
      ensures Standardises(Flattened(window)[6 * i + feat], window[i].Raw()[feat], feat)
    {
      FlattenedAt(window, i, feat);
    }

    /** The layout of the input: six cells a snapshot, in the order in which the model was trained. */
    lemma InputLayout(window: seq<StateSnapshot>, i: nat)
      requires i < |window|
      ensures |Flattened(window)| == 6 * |window|
      ensures var flat, s := Flattened(window), window[i];
        && Standardises(flat[6 * i], s.requests10s, 0) && Standardises(flat[6 * i + 1], s.requests60s, 1)
        && Standardises(flat[6 * i + 2], s.endpointEntropy, 2) && Standardises(flat[6 * i + 3], s.latencySpike, 3)
        && Standardises(flat[6 * i + 4], s.errorRate, 4) && Standardises(flat[6 * i + 5], s.requestVariance, 5)
    {
      hide Flattened;
      CellAt(window, i, 0);
      CellAt(window, i, 1);
      CellAt(window, i, 2);
      CellAt(window, i, 3);
      CellAt(window, i, 4);
      CellAt(window, i, 5);
    }

    method Flatten(window: array<StateSnapshot>) returns (flatInput: array<Cell>)
      ensures fresh(flatInput) && flatInput[..] == Flattened(window[..])
    {
      flatInput := new Cell[window.Length * FEATURES](_ => None);
      for i := 0 to window.Length
        invariant flatInput[..i * FEATURES] == Flattened(window[..i])
      {
        for feat := 0 to FEATURES
          invariant flatInput[..i * FEATURES + feat] == Flattened(window[..i]) + Row(window[i])[..feat]
        {
          flatInput[i * FEATURES + feat] := Standard(window[i], feat);
        }
        assert window[..i + 1][..i] == window[..i] && Row(window[i])[..FEATURES] == Row(window[i]);
      }
      assert window[..window.Length] == window[..];
      assert flatInput[..window.Length * FEATURES] == flatInput[..];
    }
  }

  /** Running the model on a flattened window. */
  type Session = seq<Cell> -> Outcome

  ghost predicate Usable(model: Option<Session>) {
    model.Some? ==> forall input :: model.value(input).Shaped() && model.value(input) != NotLoaded
  }

  function Repeat(x: StateSnapshot, n: nat): (r: seq<StateSnapshot>)
    ensures |r| == n
  {
    seq(n, _ => x)
  }

  /** The window is the last n snapshots of the history as if its first snapshot had been seen forever
      before. */
  function WindowOf(log: seq<StateSnapshot>, n: nat): (window: seq<StateSnapshot>)
    requires log != []
    ensures |window| == n
  {
    LastN(Repeat(log[0], n) + log, n)
  }

  /** Position i of the window is as far from its end as log position |log| - n + i is from the newest snapshot;
      before the first snapshot, it is the first. */
  lemma WindowAt(log: seq<StateSnapshot>, n: nat, i: nat)
    requires log != [] && i < n
    ensures WindowOf(log, n)[i] == log[if |log| + i < n then 0 else |log| + i - n]
  {
  }

  ghost predicate IsModelForecast(exp: real -> real, rows: seq<seq<real>>, fc: Forecast, now: int)
    requires Logits(rows).Shaped()
  {
    && fc.WellFormed() && fc.timestamp == now && |fc.probabilities| == HORIZONS
    && (forall h :: 0 <= h < HORIZONS ==>
        && IsSoftmax(exp, rows[h], fc.probabilities[h], fc.stages[h])
        && fc.confidences[h] == fc.probabilities[h][fc.stages[h]]
        && fc.names[h] == STAGE_NAMES[fc.stages[h]])
    && IsRisk(fc.stages, fc.confidences, fc.risk, fc.leadSeconds)
  }

  /** What Predict answers, from the whole history: only the newest snapshot matters to the fallback. */
  ghost predicate IsPrediction(log: seq<StateSnapshot>, outcome: Outcome, exp: real -> real, now: int, fc: Forecast)
    requires outcome.Shaped()
  {
    if log == [] then fc == Quiet(now)
    else if outcome.Logits? then IsModelForecast(exp, outcome.rows, fc, now)
    else fc == Outlook(log[|log| - 1].anomalyScore, now)
  }

  /** The answer is determined: by the history, what the model makes of it, and the clock. */
  lemma PredictionIsUnique(log: seq<StateSnapshot>, outcome: Outcome, exp: real -> real, now: int,
        fc: Forecast, other: Forecast)
    requires ExpLike(exp) && outcome.Shaped()
    requires IsPrediction(log, outcome, exp, now, fc) && IsPrediction(log, outcome, exp, now, other)
    ensures fc == other
  {
    hide IsSoftmax, IsRisk, Outlook, ExpLike;
    if log != [] && outcome.Logits? {
      forall h | 0 <= h < HORIZONS
        ensures fc.probabilities[h] == other.probabilities[h] && fc.stages[h] == other.stages[h]
      {
        SoftmaxIsUnique(exp, outcome.rows[h], fc.probabilities[h], fc.stages[h],
                        other.probabilities[h], other.stages[h]);
      }
      assert fc.probabilities == other.probabilities && fc.stages == other.stages;
      assert fc.names == other.names && fc.confidences == other.confidences;
      RiskIsUnique(fc.stages, fc.confidences, fc.risk, fc.leadSeconds, other.risk, other.leadSeconds);
    }
  }

  // ---------- the buffer ----------

  lemma PushedEnd(log: seq<StateSnapshot>, n: nat, snap: StateSnapshot)
    requires n > 0
    ensures LastN(log + [snap], n) ==
            if |LastN(log, n)| < n then LastN(log, n) + [snap] else LastN(log, n)[1..] + [snap]
  {
  }

  class SnapshotBuffer {
    const data: array<StateSnapshot>
    var len: nat
    ghost var log: seq<StateSnapshot>

    ghost predicate Valid()
      reads this, data
    {
      data.Length > 0 && len <= data.Length && data[..len] == LastN(log, data.Length)
    }

    constructor (bufferCap: int)
      ensures Valid() && fresh(data) && log == []
      ensures data.Length == if bufferCap <= 0 then 30 else bufferCap
    {
      var cap := if bufferCap <= 0 then DEFAULT_BUFFER else bufferCap;
      data := new StateSnapshot[cap](_ => ZERO_SNAPSHOT);
      len, log := 0, [];
    }

    /** A full buffer is shifted down by one in place. */
    method AddState(snap: StateSnapshot)
      requires Valid()
      modifies this, data
      ensures Valid() && log == old(log) + [snap]
    {
      hide LastN;
      ghost var before := data[..len];
      PushedEnd(log, data.Length, snap);
      if len < data.Length {
        data[len] := snap;
        len := len + 1;
        assert data[..len] == before + [snap];
      } else {
        for i := 0 to data.Length - 1
          invariant len == data.Length && log == old(log)
          invariant forall k :: 0 <= k < i ==> data[k] == before[k + 1]
          invariant forall k :: i <= k < data.Length ==> data[k] == before[k]
        {
          data[i] := data[i + 1];
        }
        data[data.Length - 1] := snap;
        assert data[..len] == before[1..] + [snap];
      }
      log := log + [snap];
    }

    /** The newest snapshot of the buffer is the newest of the history. */
    lemma Newest()
      requires Valid()
      ensures len == 0 <==> log == []
      ensures len > 0 ==> data[len - 1] == log[|log| - 1]
    {
      if len > 0 {
        assert data[len - 1] == data[..len][len - 1];
      }
    }
  }

  lemma PaddedWindow(log: seq<StateSnapshot>, n: nat, kept: seq<StateSnapshot>)
    requires kept == LastN(log, n) != []
    ensures log != [] && Repeat(kept[0], n - |kept|) + kept == WindowOf(log, n)
    ensures kept[|kept| - 1] == log[|log| - 1]
  {
  }

  /** The build with the model runtime. */
  class Forecaster {
    const buffer: SnapshotBuffer
    const seqLen: nat
    const scaler: Scaler
    const exp: real -> real

    ghost predicate Valid()
      reads this, buffer, buffer.data
    {
      buffer.Valid() && seqLen == buffer.data.Length && ExpLike(exp)
    }

    constructor (bufferCap: int, scaler: Scaler, exp: real -> real)
      requires ExpLike(exp)
      ensures Valid() && fresh(buffer) && fresh(buffer.data) && buffer.log == []
      ensures seqLen == if bufferCap <= 0 then 30 else bufferCap
      ensures this.scaler == scaler && this.exp == exp
    {
      var b := new SnapshotBuffer(bufferCap);
      buffer, seqLen, this.scaler, this.exp := b, b.data.Length, scaler, exp;
    }

    /** What asking the model about the history yields: it sees the standardised window. */
    ghost function OutcomeFor(model: Option<Session>): Outcome
      reads this, buffer
    {
      if model.None? || buffer.log == [] then NotLoaded
      else model.value(scaler.Flattened(WindowOf(buffer.log, seqLen)))
    }

    method Window() returns (window: array<StateSnapshot>)
      requires Valid() && buffer.len > 0
      ensures fresh(window) && window.Length == seqLen
      ensures buffer.log != [] && window[..] == WindowOf(buffer.log, seqLen)
      ensures window[seqLen - 1] == buffer.log[|buffer.log| - 1]
    {
      hide LastN;
      var bufLen := buffer.len;
      window := new StateSnapshot[seqLen](_ => ZERO_SNAPSHOT);
      if bufLen >= seqLen {
        forall i | 0 <= i < seqLen {
          window[i] := buffer.data[bufLen - seqLen + i];
        }
      } else {
        for i := 0 to seqLen - bufLen
          invariant forall k :: 0 <= k < i ==> window[k] == buffer.data[0]
        {
          window[i] := buffer.data[0];
        }
        forall i | 0 <= i < bufLen {
          window[seqLen - bufLen + i] := buffer.data[i];
        }
      }
      ghost var kept := buffer.data[..bufLen];
      assert window[..] == Repeat(kept[0], seqLen - bufLen) + kept;
      PaddedWindow(buffer.log, seqLen, kept);
    }

    /** The fallback: for each range of the newest anomaly score, the whole forecast. */
    method HeuristicForecast(window: array<StateSnapshot>, now: int) returns (res: Forecast)
      requires window.Length > 0
      ensures res == Outlook(window[window.Length - 1].anomalyScore, now)
    {
      hide IsRisk, SurgeAt, WarnAt, Outlook, Spike;
      var last := window[window.Length - 1];
      var currStage;
      if last.anomalyScore > 0.85 {
        currStage := SURGE;
      } else if last.anomalyScore > 0.65 {
        currStage := ESCALATION;
      } else if last.anomalyScore > 0.40 {
        currStage := RECON;
      } else {
        currStage := NORMAL;
      }
      var names, stages, confs, probs := [], [], [], [];
      for h := 0 to HORIZONS
        invariant |names| == |stages| == |confs| == |probs| == h
        invariant forall g :: 0 <= g < h ==>
          stages[g] == StageAt(last.anomalyScore, g) && names[g] == STAGE_NAMES[StageAt(last.anomalyScore, g)]
        invariant forall g :: 0 <= g < h ==>
          confs[g] == ConfidenceAt(g) && probs[g] == Spike(StageAt(last.anomalyScore, g), ConfidenceAt(g))
      {
        var stage := currStage;
        if h > 0 && currStage == ESCALATION {
          stage := SURGE;
        } else if h > 0 && currStage == SURGE {
          stage := SUSTAINED;
        }
        stages, names := stages + [stage], names + [STAGE_NAMES[stage]];
        confs := confs + [Max(0.50, 0.90 - h as real * 0.10)];
        probs := probs + [Spike(stage, confs[h])];
      }
      var risk, lead := ComputeRiskAndLeadTime(stages, confs);
      res := Forecast(names, stages, confs, probs, risk, lead, now);
      OutlookFrom(res, last.anomalyScore);
    }

    /** The forecast, and whether an error accompanies it. */
    method Predict(model: Option<Session>, now: int) returns (res: Forecast, failed: bool)
      requires Valid() && Usable(model)
      ensures OutcomeFor(model).Shaped() && IsPrediction(buffer.log, OutcomeFor(model), exp, now, res)
      ensures res.WellFormed() && res.timestamp == now
      ensures failed <==> OutcomeFor(model).Failed?
    {
      hide IsRisk, IsSoftmax, Outlook, WindowOf;
      buffer.Newest();
      if buffer.len == 0 {
        return Quiet(now), false;
      }
      var window := Window();
      OutlookWellFormed(window[seqLen - 1].anomalyScore, now);
      if model.None? {
        res := HeuristicForecast(window, now);
        return res, false;
      }
      var flatInput := scaler.Flatten(window);
      var outcome := model.value(flatInput[..]);
      if outcome.Failed? {
        res := HeuristicForecast(window, now);
        return res, true;
      }
      res := Decode(outcome.rows, now);
      failed := false;
    }

    /** Softmax over the classes of each horizon. */
    method Decode(rows: seq<seq<real>>, now: int) returns (res: Forecast)
      requires ExpLike(exp) && Logits(rows).Shaped()
      ensures IsModelForecast(exp, rows, res, now)
    {
      hide IsRisk, IsSoftmax, ExpLike;
      var stages: seq<nat> := [];
      var names, confs, probs := [], [], [];
      for h := 0 to HORIZONS
        invariant |names| == |stages| == |confs| == |probs| == h
        invariant forall g :: 0 <= g < h ==>
          && stages[g] < |STAGE_NAMES| == |probs[g]| && IsSoftmax(exp, rows[g], probs[g], stages[g])
          && confs[g] == probs[g][stages[g]] && names[g] == STAGE_NAMES[stages[g]]
      {
        var row, best, confidence := Softmax(rows[h], exp);
        stages, names := stages + [best], names + [STAGE_NAMES[best]];
        confs, probs := confs + [confidence], probs + [row];
      }
      var risk, lead := ComputeRiskAndLeadTime(stages, confs);
      return Forecast(names, stages, confs, probs, risk, lead, now);
    }
  }
}
