/** core/decision/decision_engine.go: actions ordered by severity, and the threshold policy. */
module Decision {
  import opened Common

  type Action = a: int | 0 <= a <= 2

  const ALLOW: Action := 0
  const RATE_LIMIT: Action := 1
  const BLOCK: Action := 2

  datatype ThresholdPolicy = ThresholdPolicy(blockThreshold: real, rateLimitThreshold: real) {
    function Evaluate(score: real): Action {
      if score > blockThreshold then BLOCK
      else if score > rateLimitThreshold then RATE_LIMIT
      else ALLOW
    }

    /** The action is the number of thresholds that the score exceeds. */
    lemma EvaluateCounts(score: real)
      requires rateLimitThreshold < blockThreshold
      ensures var thresholds := {rateLimitThreshold, blockThreshold};
        Evaluate(score) == |set t | t in thresholds && score > t|
    {
      var thresholds := {rateLimitThreshold, blockThreshold};
      assert (set t | t in thresholds && score > t) ==
             if score > blockThreshold then thresholds
             else if score > rateLimitThreshold then {rateLimitThreshold} else {};
    }

    lemma EvaluateMonotone(low: real, high: real)
      requires low <= high
      ensures Evaluate(low) <= Evaluate(high)
    {
    }
  }

  /** NewThresholdPolicy: all three actions are reachable, or there is no policy. */
  function NewThresholdPolicy(blockThreshold: real, rateLimitThreshold: real): (r: Option<ThresholdPolicy>)
    ensures r.Some? <==> exists low, mid, high ::
              var p := ThresholdPolicy(blockThreshold, rateLimitThreshold);
              p.Evaluate(low) == ALLOW && p.Evaluate(mid) == RATE_LIMIT && p.Evaluate(high) == BLOCK
    ensures r.Some? ==>
            r.value.blockThreshold == blockThreshold && r.value.rateLimitThreshold == rateLimitThreshold
  {
    if rateLimitThreshold >= blockThreshold then None
    else
      var p := ThresholdPolicy(blockThreshold, rateLimitThreshold);
      assert p.Evaluate(rateLimitThreshold) == ALLOW && p.Evaluate(blockThreshold) == RATE_LIMIT
          && p.Evaluate(blockThreshold + 1.0) == BLOCK;
      Some(p)
  }

  // ---------- any engine ----------

  datatype Prediction = Prediction(ipHash: string, anomalyScore: real, riskLevel: string, recommendedAction: string)

  /** The DecisionEngine interface: anything that turns a prediction into an action. */
  type Engine = Prediction -> Action
}
