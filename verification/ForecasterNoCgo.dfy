/** core/forecasting/forecaster_nocgo.go: the build without the model runtime, written a second time. */
module ForecasterNoCgo {
  import opened Common
  import opened Forecaster

  const ZERO_ROW: seq<real> := [0.0, 0.0, 0.0, 0.0, 0.0]

  /** What the results at one horizon should be. */
  ghost predicate Entry(score: real, h: nat, name: string, stage: nat, confidence: real, probs: seq<real>) {
    && stage == StageAt(score, h) && name == STAGE_NAMES[StageAt(score, h)]
    && confidence == ConfidenceAt(h) && probs == Spike(stage, confidence)
  }

  class StubForecaster {
    const buffer: SnapshotBuffer

    constructor (bufferCap: int)
      ensures buffer.Valid() && fresh(buffer) && fresh(buffer.data) && buffer.log == []
    {
      buffer := new SnapshotBuffer(bufferCap);
    }

    /** This build's own computeRiskAndLeadTime. */
    static method RiskAndLeadTime(stages: seq<nat>, confs: seq<real>) returns (risk: string, lead: int)
      requires |stages| == |confs| == HORIZONS
      ensures IsRisk(stages, confs, risk, lead)
    {
      var hasSurge, surgeHorizon := false, -1;
      for h := 0 to HORIZONS
        invariant hasSurge <==> exists g :: 0 <= g < h && SurgeAt(stages, confs, g)
        invariant !hasSurge ==> surgeHorizon == -1
        invariant hasSurge ==> 1 <= surgeHorizon <= h && SurgeAt(stages, confs, surgeHorizon - 1)
        invariant hasSurge ==> forall g :: 0 <= g < surgeHorizon - 1 ==> !SurgeAt(stages, confs, g)
      {
        if (stages[h] == SURGE || stages[h] == SUSTAINED) && confs[h] >= 0.50 {
          assert SurgeAt(stages, confs, h);
          hasSurge := true;
          if surgeHorizon == -1 {
            surgeHorizon := h + 1;
          }
        }
      }
      var leadSecs := 0;
      if surgeHorizon > 0 {
        leadSecs := surgeHorizon * 10;
      }
      if hasSurge {
        if stages[0] == SURGE || stages[0] == SUSTAINED || confs[surgeHorizon - 1] >= 0.70 {
          return "CRITICAL", leadSecs;
        }
        return "HIGH", leadSecs;
      }
      for h := 0 to HORIZONS
        invariant forall g :: 0 <= g < h ==> !WarnAt(stages, confs, g)
      {
        if stages[h] == ESCALATION && confs[h] >= 0.60 {
          assert WarnAt(stages, confs, h);
          return "HIGH", 0;
        }
        if stages[h] == ESCALATION || (stages[h] == RECON && confs[h] >= 0.50) {
          assert WarnAt(stages, confs, h);
          return "ELEVATED", 0;
        }
      }
      return "LOW", 0;
    }

    /** One pass of the loop, before its assignments. */
    static method Horizon(currStage: nat, h: nat, row: seq<real>, ghost score: real)
      returns (stage: nat, confidence: real, probs: seq<real>)
      requires currStage == StageAt(score, 0) && row == ZERO_ROW
      ensures stage < |STAGE_NAMES| && Entry(score, h, STAGE_NAMES[stage], stage, confidence, probs)
    {
      stage := currStage;
      if h > 0 && currStage == ESCALATION {
        stage := SURGE;
      } else if h > 0 && currStage == SURGE {
        stage := SUSTAINED;
      }
      confidence := if 0.50 >= 0.90 - h as real * 0.10 then 0.50 else 0.90 - h as real * 0.10;
      probs := row[stage := confidence];
      assert probs == Spike(stage, confidence);
    }

    /** The loop over the result's arrays, which are values of fixed length. */
    static method FillHorizons(currStage: nat, ghost score: real)
      returns (names: seq<string>, stages: seq<nat>, confs: seq<real>, probs: seq<seq<real>>)
      requires currStage == StageAt(score, 0)
      ensures |names| == |stages| == |confs| == |probs| == HORIZONS
      ensures forall h: nat :: h < HORIZONS ==> Entry(score, h, names[h], stages[h], confs[h], probs[h])
    {
      hide Entry, StageAt;
      names, stages := ["NORMAL", "NORMAL", "NORMAL"], [NORMAL, NORMAL, NORMAL];
      confs, probs := [0.95, 0.90, 0.85], [ZERO_ROW, ZERO_ROW, ZERO_ROW];
      for h := 0 to HORIZONS
        invariant |names| == |stages| == |confs| == |probs| == HORIZONS
        invariant forall g: nat :: g < h ==> Entry(score, g, names[g], stages[g], confs[g], probs[g])
        invariant forall g :: h <= g < HORIZONS ==> probs[g] == ZERO_ROW
      {
        var stage, confidence, row := Horizon(currStage, h, probs[h], score);
        stages, names := stages[h := stage], names[h := STAGE_NAMES[stage]];
        confs, probs := confs[h := confidence], probs[h := row];
      }
    }

    /** The heuristic once more; it reads the newest snapshot of the buffer, not a window. */
    method Predict(now: int) returns (res: Forecast)
      requires buffer.Valid()
      ensures res == if buffer.log == [] then Quiet(now) else Outlook(buffer.log[|buffer.log| - 1].anomalyScore, now)
    {
      hide IsRisk, Outlook, Spike, ConfidenceAt;
      buffer.Newest();
      if buffer.len == 0 {
        return Quiet(now);
      }
      var last := buffer.data[buffer.len - 1];
      var currStage;
      if last.anomalyScore > 0.85 {
        currStage := SURGE;
      } else if last.anomalyScore > 0.65 {
        currStage := ESCALATION;
      } else if last.anomalyScore > 0.40 {
        currStage := RECON;
      } else {
        currStage := NORMAL;
      }
      var names, stages, confs, probs := FillHorizons(currStage, last.anomalyScore);
      var risk, lead := RiskAndLeadTime(stages, confs);
      res := Forecast(names, stages, confs, probs, risk, lead, now);
      assert forall h: nat :: h < HORIZONS ==>
        Entry(last.anomalyScore, h, res.names[h], res.stages[h], res.confidences[h], res.probabilities[h]);
      OutlookFrom(res, last.anomalyScore);
    }
  }

  lemma OnlyTimeDiffers(score: real, now: int, later: int)
    ensures Quiet(now).(timestamp := later) == Quiet(later)
    ensures Outlook(score, now).(timestamp := later) == Outlook(score, later)
  {
  }

  /** The telemetry arrives. */
  method Feed(buffer: SnapshotBuffer, snaps: seq<StateSnapshot>)
    requires buffer.Valid() && buffer.log == []
    modifies buffer, buffer.data
    ensures buffer.Valid() && buffer.log == snaps
  {
    for i := 0 to |snaps|
      invariant buffer.Valid() && buffer.log == snaps[..i]
    {
      buffer.AddState(snaps[i]);
    }
  }

  /** Two objects, one of each build, fed the same snapshots: whatever their buffer capacities, and as long
      as the first has no model or the model fails, they forecast the same, apart from the time stamp. */
  method BuildsAgree(snaps: seq<StateSnapshot>, capacity: int, otherCapacity: int, scaler: Scaler,
                     exp: real -> real, model: Option<Session>, now: int, later: int)
    returns (fc: Forecast, stub: Forecast)
    requires ExpLike(exp) && Usable(model) && (model.Some? ==> forall input :: !model.value(input).Logits?)
    ensures fc.(timestamp := later) == stub
  {
    hide Outlook, Quiet;
    var f := new Forecaster(capacity, scaler, exp);
    var g := new StubForecaster(otherCapacity);
    Feed(f.buffer, snaps);
    Feed(g.buffer, snaps);
    var failed;
    fc, failed := f.Predict(model, now);
    stub := g.Predict(later);
    OnlyTimeDiffers(if snaps == [] then 0.0 else snaps[|snaps| - 1].anomalyScore, now, later);
  }
}
