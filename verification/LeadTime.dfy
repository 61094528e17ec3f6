/** forecasting/evaluation/lead_time.py: attack episodes, early detections and false alarms, over the
    t+1 columns of the stage arrays. */
module LeadTime {
  import opened Common

  const LOOK_BACK := 20
  const STAGE_COUNT := 5

  datatype Config = Config(surgeThreshold: int, minConfidence: real, minConsecutive: int)

  // ---------- episodes ----------

  datatype Episode = Episode(onset: nat, peak: nat, resolution: nat, peakStage: int)

  /** A maximal run of stages at or above the threshold, with the first of its maxima as peak. */
  ghost predicate IsEpisode(stages: seq<int>, threshold: int, e: Episode) {
    && e.onset <= e.peak <= e.resolution < |stages|
    && (forall i :: e.onset <= i <= e.resolution ==> threshold <= stages[i] <= e.peakStage)
    && (e.onset == 0 || stages[e.onset - 1] < threshold)
    && (e.resolution + 1 == |stages| || stages[e.resolution + 1] < threshold)
    && stages[e.peak] == e.peakStage
    && forall i :: e.onset <= i < e.peak ==> stages[i] < e.peakStage
  }

  ghost predicate Covers(e: Episode, i: int) {
    e.onset <= i <= e.resolution
  }

  ghost predicate CoveredBy(episodes: seq<Episode>, i: int) {
    exists k :: 0 <= k < |episodes| && Covers(episodes[k], i)
  }

  lemma NothingCovered(i: int)
    ensures !CoveredBy([], i)
  {
  }

  lemma CoveredByAppend(episodes: seq<Episode>, e: Episode, i: int)
    ensures CoveredBy(episodes + [e], i) <==> CoveredBy(episodes, i) || Covers(e, i)
  {
    var more := episodes + [e];
    assert more[|episodes|] == e;
    assert forall k :: 0 <= k < |episodes| ==> more[k] == episodes[k];
  }

  /** All the maximal runs and nothing else, in order, disjoint and not adjacent. */
  ghost predicate AreEpisodes(stages: seq<int>, threshold: int, episodes: seq<Episode>) {
    && (forall k :: 0 <= k < |episodes| ==> IsEpisode(stages, threshold, episodes[k]))
    && (forall j, k :: 0 <= j < k < |episodes| ==> episodes[j].resolution + 1 < episodes[k].onset)
    && forall i {:trigger CoveredBy(episodes, i)} :: 0 <= i < |stages| ==>
        (stages[i] >= threshold <==> CoveredBy(episodes, i))
  }

  /** detect_episodes. */
  method DetectEpisodes(stages: seq<int>, threshold: int) returns (episodes: seq<Episode>)
    ensures AreEpisodes(stages, threshold, episodes)
  {
    hide IsEpisode, CoveredBy;
    episodes := [];
    forall u ensures !CoveredBy([], u) { NothingCovered(u); }
    var i := 0;
    while i < |stages|
      invariant 0 <= i <= |stages|
      invariant i == 0 || i == |stages| || stages[i - 1] < threshold || stages[i] < threshold
      invariant forall k :: 0 <= k < |episodes| ==> IsEpisode(stages, threshold, episodes[k])
      invariant forall k :: 0 <= k < |episodes| ==>
        episodes[k].resolution < i && (i < |stages| && stages[i] >= threshold ==> episodes[k].resolution + 1 < i)
      invariant forall j, k :: 0 <= j < k < |episodes| ==> episodes[j].resolution + 1 < episodes[k].onset
      invariant forall u {:trigger CoveredBy(episodes, u)} :: 0 <= u < i ==>
        (stages[u] >= threshold <==> CoveredBy(episodes, u))
      invariant forall u {:trigger CoveredBy(episodes, u)} :: u >= i ==> !CoveredBy(episodes, u)
    {
      if stages[i] >= threshold {
        var e := ScanEpisode(stages, threshold, i);
        forall u ensures CoveredBy(episodes + [e], u) <==> CoveredBy(episodes, u) || Covers(e, u) {
          CoveredByAppend(episodes, e, u);
        }
        episodes := episodes + [e];
        i := e.resolution + 1;
      } else {
        i := i + 1;
      }
    }
  }

  /** The inner scan: from an onset to the end of its run, remembering the first maximum. */
  method ScanEpisode(stages: seq<int>, threshold: int, onset: nat) returns (e: Episode)
    requires onset < |stages| && stages[onset] >= threshold && (onset == 0 || stages[onset - 1] < threshold)
    ensures IsEpisode(stages, threshold, e) && e.onset == onset <= e.resolution < |stages|
    ensures forall i :: Covers(e, i) ==> stages[i] >= threshold
    ensures e.resolution + 1 == |stages| || stages[e.resolution + 1] < threshold
  {
    var peak, peakStage := onset, stages[onset];
    var j := onset + 1;
    while j < |stages| && stages[j] >= threshold
      invariant onset <= peak < j <= |stages| && stages[peak] == peakStage
      invariant forall i :: onset <= i < j ==> threshold <= stages[i] <= peakStage
      invariant forall i :: onset <= i < peak ==> stages[i] < peakStage
    {
      if stages[j] > peakStage {
        peakStage, peak := stages[j], j;
      }
      j := j + 1;
    }
    e := Episode(onset, peak, j - 1, peakStage);
  }

  /** The characterisation leaves no choice: two runs that cover a common step are the same episode. */
  lemma EpisodesAreDetermined(stages: seq<int>, threshold: int, d: Episode, e: Episode, i: int)
    requires IsEpisode(stages, threshold, d) && IsEpisode(stages, threshold, e) && Covers(d, i) && Covers(e, i)
    ensures d == e
  {
    assert forall u :: d.onset <= u <= d.resolution ==> stages[u] >= threshold;
    assert forall u :: e.onset <= u <= e.resolution ==> stages[u] >= threshold;
    assert d.onset == e.onset && d.resolution == e.resolution;
    assert stages[d.peak] <= e.peakStage && stages[e.peak] <= d.peakStage;
  }

  // ---------- early detection ----------

  /** The predicted stages, with the class probabilities when the model gives them. */
  datatype Forecast = Forecast(stages: seq<int>, proba: Option<seq<seq<real>>>) {
    ghost predicate Valid() {
      proba.Some? ==> |proba.value| == |stages| && forall i :: 0 <= i < |stages| ==> proba.value[i] != []
    }
  }

  /** numpy.max. */
  function Max(row: seq<real>): (m: real)
    requires row != []
    ensures m in row && forall c :: 0 <= c < |row| ==> row[c] <= m
  {
    if |row| == 1 then row[0]
    else
      var m := Max(row[..|row| - 1]);
      assert forall c :: 0 <= c < |row| - 1 ==> row[c] == row[..|row| - 1][c];
      if row[|row| - 1] > m then row[|row| - 1] else m
  }

  /** The row of probabilities is confident about the stage: about this class, or about any when the stage is
      none of its classes. */
  ghost predicate Confident(cfg: Config, row: seq<real>, stage: int) {
    if 0 <= stage < |row| then row[stage] >= cfg.minConfidence
    else exists c :: 0 <= c < |row| && row[c] >= cfg.minConfidence
  }

  /** Step i predicts an attack with enough confidence. */
  ghost predicate Warns(cfg: Config, f: Forecast, i: nat)
    requires f.Valid() && i < |f.stages|
  {
    f.stages[i] >= cfg.surgeThreshold && (f.proba.Some? ==> Confident(cfg, f.proba.value[i], f.stages[i]))
  }

  function BlockLength(cfg: Config): nat {
    if cfg.minConsecutive < 1 then 1 else cfg.minConsecutive
  }

  function SearchStart(onset: nat): nat {
    if onset < LOOK_BACK then 0 else onset - LOOK_BACK
  }

  /** Enough consecutive warnings from step i on, within the look-back window before the onset. */
  ghost predicate Block(cfg: Config, f: Forecast, onset: nat, i: nat)
    requires f.Valid() && onset <= |f.stages|
  {
    && SearchStart(onset) <= i && i + BlockLength(cfg) <= onset
    && forall j :: i <= j < i + BlockLength(cfg) ==> Warns(cfg, f, j)
  }

  datatype Detection = Detection(onset: nat, detected: bool, lead: nat, firstCorrect: int, consecutive: nat)

  /** The lead is the distance from the onset back to the farthest block, or zero without one. */
  ghost predicate IsLead(cfg: Config, f: Forecast, onset: nat, lead: nat)
    requires f.Valid() && onset <= |f.stages|
  {
    && (lead == 0 ==> forall i: nat :: !Block(cfg, f, onset, i))
    && (lead > 0 ==>
          && lead <= onset && Block(cfg, f, onset, onset - lead)
          && forall i: nat :: Block(cfg, f, onset, i) ==> onset - lead <= i)
  }

  /** Exactly c warnings stand between step i and the next step that does not warn, or the onset. */
  ghost predicate Streak(cfg: Config, f: Forecast, onset: nat, i: nat, c: nat)
    requires f.Valid() && onset <= |f.stages|
  {
    && i + c <= onset
    && (forall j :: i <= j < i + c ==> Warns(cfg, f, j))
    && (i + c < onset ==> !Warns(cfg, f, i + c))
  }

  ghost predicate IsDetection(cfg: Config, f: Forecast, onset: nat, d: Detection)
    requires f.Valid() && onset <= |f.stages|
  {
    && d.onset == onset
    && IsLead(cfg, f, onset, d.lead)
    && (d.detected <==> d.lead > 0)
    && (d.detected ==> d.firstCorrect == onset - d.lead && Streak(cfg, f, onset, onset - d.lead, d.consecutive))
    && (!d.detected ==> d.firstCorrect == -1 && d.consecutive == 0)
  }

  /** The backward scan before one onset. */
  method DetectBefore(cfg: Config, f: Forecast, onset: nat) returns (d: Detection)
    requires f.Valid() && onset <= |f.stages|
    ensures IsDetection(cfg, f, onset, d)
  {
    var bestLead, firstCorrect, consecutive, bestConsecutive := 0, -1, 0, 0;
    var idx: nat := onset;
    while idx > SearchStart(onset)
      invariant SearchStart(onset) <= idx <= onset
      invariant Streak(cfg, f, onset, idx, consecutive)
      invariant bestLead == 0 ==>
        && firstCorrect == -1 && bestConsecutive == 0
        && forall i: nat :: i >= idx ==> !Block(cfg, f, onset, i)
      invariant bestLead > 0 ==>
        && firstCorrect == onset - bestLead && idx <= firstCorrect
        && Block(cfg, f, onset, firstCorrect) && Streak(cfg, f, onset, firstCorrect, bestConsecutive)
        && forall i: nat :: i >= idx && Block(cfg, f, onset, i) ==> firstCorrect <= i
    {
      idx := idx - 1;
      var predictedAttack := f.stages[idx] >= cfg.surgeThreshold;
      if predictedAttack && f.proba.Some? {
        var row := f.proba.value[idx];
        var confidence := if 0 <= f.stages[idx] < |row| then row[f.stages[idx]] else Max(row);
        if confidence < cfg.minConfidence {
          predictedAttack := false;
        }
      }
      if predictedAttack {
        consecutive := consecutive + 1;
        if consecutive >= cfg.minConsecutive {
          assert Block(cfg, f, onset, idx);
          var lead := onset - idx;
          if lead > bestLead {
            bestLead, firstCorrect, bestConsecutive := lead, idx, consecutive;
          }
        }
      } else {
        consecutive := 0;
      }
    }
    d := Detection(onset, bestLead > 0, bestLead, firstCorrect, bestConsecutive);
  }

  /** evaluate_detections: one result for each of the episodes. */
  method EvaluateDetections(cfg: Config, trueStages: seq<int>, f: Forecast)
    returns (episodes: seq<Episode>, detections: seq<Detection>)
    requires f.Valid() && |trueStages| == |f.stages|
    ensures AreEpisodes(trueStages, cfg.surgeThreshold, episodes)
    ensures |detections| == |episodes|
    ensures forall k :: 0 <= k < |episodes| ==>
      episodes[k].onset <= |f.stages| && IsDetection(cfg, f, episodes[k].onset, detections[k])
  {
    episodes := DetectEpisodes(trueStages, cfg.surgeThreshold);
    detections := [];
    for k := 0 to |episodes|
      invariant |detections| == k
      invariant forall j :: 0 <= j < |episodes| ==> episodes[j].onset <= |f.stages|
      invariant forall j :: 0 <= j < k ==> IsDetection(cfg, f, episodes[j].onset, detections[j])
    {
      var d := DetectBefore(cfg, f, episodes[k].onset);
      detections := detections + [d];
    }
  }

  /** From step i on, within 20 steps before the onset, the predictions reach the threshold for as long as asked
      for, each with enough probability for its own class (for some class, when the stage is none). */
  ghost predicate AttackBlock(cfg: Config, f: Forecast, onset: nat, i: int)
    requires f.Valid() && onset <= |f.stages|
  {
    var length := if cfg.minConsecutive > 1 then cfg.minConsecutive else 1;
    && 0 <= i && onset - 20 <= i && i + length <= onset
    && (forall j :: i <= j < i + length ==> f.stages[j] >= cfg.surgeThreshold)
    && (f.proba.Some? ==> forall j :: i <= j < i + length ==>
          var row := f.proba.value[j];
          if 0 <= f.stages[j] < |row| then row[f.stages[j]] >= cfg.minConfidence
          else HasAtLeast(row, cfg.minConfidence))
  }

  ghost predicate HasAtLeast(row: seq<real>, x: real) {
    exists c :: 0 <= c < |row| && row[c] >= x
  }

  lemma BlockIsAttackBlock(cfg: Config, f: Forecast, onset: nat, i: int)
    requires f.Valid() && onset <= |f.stages|
    ensures AttackBlock(cfg, f, onset, i) <==> i >= 0 && Block(cfg, f, onset, i)
  {
    if AttackBlock(cfg, f, onset, i) {
      forall j | i <= j < i + BlockLength(cfg) ensures Warns(cfg, f, j) {}
    }
    if i >= 0 && Block(cfg, f, onset, i) {
      forall j | i <= j < i + BlockLength(cfg)
        ensures f.stages[j] >= cfg.surgeThreshold
        ensures f.proba.Some? ==> Confident(cfg, f.proba.value[j], f.stages[j])
      {
        assert Warns(cfg, f, j);
      }
    }
  }

  /** A result is a detection if and only if there is such a block, and its first correct prediction then begins
      the farthest one. */
  lemma DetectedExactly(cfg: Config, f: Forecast, onset: nat, d: Detection)
    requires f.Valid() && onset <= |f.stages| && IsDetection(cfg, f, onset, d)
    ensures d.detected <==> exists i :: AttackBlock(cfg, f, onset, i)
    ensures d.detected ==> AttackBlock(cfg, f, onset, d.firstCorrect) && d.lead == onset - d.firstCorrect > 0
    ensures d.detected ==> forall i :: AttackBlock(cfg, f, onset, i) ==> d.firstCorrect <= i
  {
    hide AttackBlock, Block, Streak, Forecast.Valid;
    forall i ensures AttackBlock(cfg, f, onset, i) <==> i >= 0 && Block(cfg, f, onset, i) {
      BlockIsAttackBlock(cfg, f, onset, i);
    }
    assert d.lead > 0 ==> Block(cfg, f, onset, onset - d.lead);
  }

  /** Predicting higher stages anywhere never costs lead time, where no probabilities are asked for. */
  lemma HigherPredictionsLeadMore(cfg: Config, f: Forecast, g: Forecast, onset: nat, a: nat, b: nat)
    requires f.Valid() && g.Valid() && f.proba == g.proba == None && onset <= |f.stages| == |g.stages|
    requires forall i :: 0 <= i < |f.stages| ==> f.stages[i] <= g.stages[i]
    requires IsLead(cfg, f, onset, a) && IsLead(cfg, g, onset, b)
    ensures a <= b
  {
    if a > 0 {
      forall j | onset - a <= j < onset - a + BlockLength(cfg) ensures Warns(cfg, g, j) {
        assert Warns(cfg, f, j);
      }
      assert Block(cfg, g, onset, onset - a);
    }
  }

  /** The two forecasts predict the same stages with the same confidence in each of them. */
  ghost predicate SameConfidence(f: Forecast, g: Forecast) {
    && f.stages == g.stages && f.proba.Some? && g.proba.Some?
    && |f.proba.value| == |g.proba.value| == |f.stages|
    && forall i :: 0 <= i < |f.stages| ==>
      var p, q, stage := f.proba.value[i], g.proba.value[i], f.stages[i];
      |p| == |q| && if 0 <= stage < |p| then p[stage] == q[stage] else p == q
  }

  /** The probabilities of other classes than the predicted one change no result. */
  lemma OtherClassesDoNotCount(cfg: Config, f: Forecast, g: Forecast, onset: nat, d: Detection)
    requires f.Valid() && g.Valid() && SameConfidence(f, g) && onset <= |f.stages|
    ensures IsDetection(cfg, f, onset, d) <==> IsDetection(cfg, g, onset, d)
  {
    forall i | 0 <= i < onset ensures Warns(cfg, f, i) <==> Warns(cfg, g, i) {}
    hide Warns, Confident, SameConfidence;
    forall i: nat ensures Block(cfg, f, onset, i) <==> Block(cfg, g, onset, i) {}
    forall i: nat, c: nat ensures Streak(cfg, f, onset, i, c) <==> Streak(cfg, g, onset, i, c) {}
  }

  /** The lead is well defined. */
  lemma LeadIsUnique(cfg: Config, f: Forecast, onset: nat, a: nat, b: nat)
    requires f.Valid() && onset <= |f.stages| && IsLead(cfg, f, onset, a) && IsLead(cfg, f, onset, b)
    ensures a == b
  {
    LeadMonotone(cfg, cfg, f, onset, a, b);
    LeadMonotone(cfg, cfg, f, onset, b, a);
  }

  /** Raising the confidence threshold or the required streak never increases a lead. */
  lemma LeadMonotone(cfg: Config, stricter: Config, f: Forecast, onset: nat, lead: nat, strictLead: nat)
    requires f.Valid() && onset <= |f.stages| && stricter.surgeThreshold == cfg.surgeThreshold
    requires stricter.minConfidence >= cfg.minConfidence && stricter.minConsecutive >= cfg.minConsecutive
    requires IsLead(cfg, f, onset, lead) && IsLead(stricter, f, onset, strictLead)
    ensures strictLead <= lead
  {
    if strictLead > 0 {
      assert Block(stricter, f, onset, onset - strictLead);
      forall j | onset - strictLead <= j < onset - strictLead + BlockLength(cfg) ensures Warns(cfg, f, j) {
        assert Warns(stricter, f, j);
      }
      assert Block(cfg, f, onset, onset - strictLead);
    }
  }

  // ---------- false alarms ----------

  function Count(mask: seq<bool>): nat {
    if mask == [] then 0 else Count(mask[..|mask| - 1]) + if mask[|mask| - 1] then 1 else 0
  }

  lemma {:induction false} CountIsCardinality(mask: seq<bool>)
    ensures Count(mask) == |set i | 0 <= i < |mask| && mask[i]|
  {
    if mask == [] {
    } else {
      var front, n := mask[..|mask| - 1], |mask| - 1;
      CountIsCardinality(front);
      assert (set i | 0 <= i < |mask| && mask[i]) ==
             (set i | 0 <= i < |front| && front[i]) + if mask[n] then {n} else {};
    }
  }

  /** Step i lies in the window of a successful early detection. */
  ghost predicate Excused(detections: seq<Detection>, i: int) {
    exists k :: 0 <= k < |detections| && detections[k].detected && detections[k].firstCorrect <= i < detections[k].onset
  }

  /** Attack predictions on steps without an attack, and how they divide. */
  ghost function AttackCalls(threshold: int, trueStages: seq<int>, stages: seq<int>): (r: seq<bool>)
    requires |trueStages| == |stages|
    ensures |r| == |stages|
  {
    seq(|stages|, i requires 0 <= i < |stages| => trueStages[i] < threshold && stages[i] >= threshold)
  }

  ghost function ExcusedCalls(threshold: int, trueStages: seq<int>, stages: seq<int>,
        detections: seq<Detection>): (r: seq<bool>)
    requires |trueStages| == |stages|
    ensures |r| == |stages|
  {
    seq(|stages|, i requires 0 <= i < |stages| =>
      trueStages[i] < threshold && stages[i] >= threshold && Excused(detections, i))
  }

  ghost function FalseAlarms(threshold: int, trueStages: seq<int>, stages: seq<int>,
        detections: seq<Detection>): (r: seq<bool>)
    requires |trueStages| == |stages|
    ensures |r| == |stages|
  {
    seq(|stages|, i requires 0 <= i < |stages| =>
      trueStages[i] < threshold && stages[i] >= threshold && !Excused(detections, i))
  }

  function OfStage(mask: seq<bool>, stages: seq<int>, stage: int): (r: seq<bool>)
    requires |mask| == |stages|
    ensures |r| == |mask|
  {
    seq(|mask|, i requires 0 <= i < |mask| => mask[i] && stages[i] == stage)
  }

  function NonAttacks(threshold: int, trueStages: seq<int>): (r: seq<bool>)
    ensures |r| == |trueStages|
  {
    seq(|trueStages|, i requires 0 <= i < |trueStages| => trueStages[i] < threshold)
  }

  /** The steps without an attack whose prediction reaches the threshold, outside successful detections. */
  ghost function AlarmSteps(threshold: int, trueStages: seq<int>, stages: seq<int>,
      detections: seq<Detection>): set<int>
    requires |trueStages| == |stages|
  {
    set i | 0 <= i < |stages| && trueStages[i] < threshold <= stages[i] && !Excused(detections, i)
  }

  lemma CountsAreSteps(threshold: int, trueStages: seq<int>, stages: seq<int>, detections: seq<Detection>)
    requires |trueStages| == |stages|
    ensures Count(NonAttacks(threshold, trueStages)) == |set i | 0 <= i < |stages| && trueStages[i] < threshold|
    ensures var alarms, steps :=
        FalseAlarms(threshold, trueStages, stages, detections), AlarmSteps(threshold, trueStages, stages, detections);
      && Count(alarms) == |steps|
      && forall s :: Count(OfStage(alarms, stages, s)) == |set i | i in steps && stages[i] == s|
  {
    hide Excused, Count;
    var non, alarms := NonAttacks(threshold, trueStages), FalseAlarms(threshold, trueStages, stages, detections);
    var steps := AlarmSteps(threshold, trueStages, stages, detections);
    CountIsCardinality(non);
    assert (set i | 0 <= i < |non| && non[i]) == set i | 0 <= i < |stages| && trueStages[i] < threshold;
    CountIsCardinality(alarms);
    assert (set i | 0 <= i < |alarms| && alarms[i]) == steps;
    forall s ensures Count(OfStage(alarms, stages, s)) == |set i | i in steps && stages[i] == s| {
      var mask := OfStage(alarms, stages, s);
      CountIsCardinality(mask);
      assert (set i | 0 <= i < |mask| && mask[i]) == set i | i in steps && stages[i] == s;
    }
  }

  datatype Metrics = Metrics(nonAttackWindows: nat, falseAlarms: nat, rate: real, byStage: map<int, nat>)

  /** compute_false_alarms. */
  method ComputeFalseAlarms(threshold: int, trueStages: seq<int>, stages: seq<int>, detections: seq<Detection>)
    returns (m: Metrics)
    requires |trueStages| == |stages|
    ensures m.nonAttackWindows == |set i | 0 <= i < |stages| && trueStages[i] < threshold|
    ensures m.falseAlarms == |AlarmSteps(threshold, trueStages, stages, detections)|
    ensures forall s :: s in m.byStage ==>
      m.byStage[s] == |set i | i in AlarmSteps(threshold, trueStages, stages, detections) && stages[i] == s|
    ensures var alarms := FalseAlarms(threshold, trueStages, stages, detections);
      && m.falseAlarms == Count(alarms)
      && m.nonAttackWindows == Count(NonAttacks(threshold, trueStages))
      && (m.nonAttackWindows == 0 ==> m.rate == 0.0 && m.byStage == map[])
      && (m.nonAttackWindows > 0 ==>
            && m.rate == m.falseAlarms as real / m.nonAttackWindows as real
            && (forall s :: s in m.byStage <==> 0 <= s < 5 && s >= threshold)
            && forall s :: s in m.byStage ==> m.byStage[s] == Count(OfStage(alarms, stages, s)))
  {
    hide Count;
    CountsAreSteps(threshold, trueStages, stages, detections);
    ghost var alarms := FalseAlarms(threshold, trueStages, stages, detections);
    var total := Count(NonAttacks(threshold, trueStages));
    if total == 0 {
      NoNonAttacks(threshold, trueStages, alarms);
      return Metrics(0, 0, 0.0, map[]);
    }
    var validIndices := ValidIndices(detections);
    var mask := seq(|stages|, i requires 0 <= i < |stages| =>
      trueStages[i] < threshold && stages[i] >= threshold && i !in validIndices);
    assert mask == alarms;
    var falseAlarms := Count(mask);
    var byStage: map<int, nat> := map[];
    for stage := 0 to STAGE_COUNT
      invariant forall s :: s in byStage <==> 0 <= s < stage && s >= threshold
      invariant forall s :: s in byStage ==> byStage[s] == Count(OfStage(mask, stages, s))
    {
      if stage >= threshold {
        byStage := byStage[stage := Count(OfStage(mask, stages, stage))];
      }
    }
    m := Metrics(total, falseAlarms, falseAlarms as real / total as real, byStage);
  }

  lemma ExcusedAppend(detections: seq<Detection>, d: Detection, i: int)
    ensures Excused(detections + [d], i) <==> Excused(detections, i) || (d.detected && d.firstCorrect <= i < d.onset)
  {
    var more := detections + [d];
    assert more[|detections|] == d;
    assert forall k :: 0 <= k < |detections| ==> more[k] == detections[k];
  }

  /** The steps from the first correct prediction up to the onset, for all successful detections. */
  method ValidIndices(detections: seq<Detection>) returns (valid: set<int>)
    ensures forall i :: i in valid <==> Excused(detections, i)
  {
    valid := {};
    for k := 0 to |detections|
      invariant forall i :: i in valid <==> Excused(detections[..k], i)
    {
      var d := detections[k];
      ghost var before := valid;
      if d.detected {
        var idx := d.firstCorrect;
        while idx < d.onset
          invariant d.firstCorrect <= idx && (idx <= d.onset || valid == before)
          invariant forall i :: i in valid <==> (i in before || (d.firstCorrect <= i < idx && i < d.onset))
        {
          valid := valid + {idx};
          idx := idx + 1;
        }
      }
      assert detections[..k + 1] == detections[..k] + [d];
      forall i ensures i in valid <==> Excused(detections[..k + 1], i) {
        ExcusedAppend(detections[..k], d, i);
      }
    }
    assert detections[..|detections|] == detections;
  }

  lemma {:induction false} CountSplits(a: seq<bool>, b: seq<bool>, c: seq<bool>)
    requires |a| == |b| == |c|
    requires forall i :: 0 <= i < |c| ==> !(a[i] && b[i]) && (c[i] <==> a[i] || b[i])
    ensures Count(c) == Count(a) + Count(b)
  {
    if c == [] {
    } else {
      CountSplits(a[..|a| - 1], b[..|b| - 1], c[..|c| - 1]);
    }
  }

  lemma {:induction false} CountZero(mask: seq<bool>)
    ensures Count(mask) == 0 <==> forall i :: 0 <= i < |mask| ==> !mask[i]
  {
    if mask == [] {
    } else {
      var front := mask[..|mask| - 1];
      CountZero(front);
      assert forall i :: 0 <= i < |front| ==> front[i] == mask[i];
    }
  }

  lemma NoNonAttacks(threshold: int, trueStages: seq<int>, alarms: seq<bool>)
    requires Count(NonAttacks(threshold, trueStages)) == 0 && |alarms| == |trueStages|
    requires forall i :: 0 <= i < |alarms| && alarms[i] ==> trueStages[i] < threshold
    ensures Count(alarms) == 0
  {
    CountZero(NonAttacks(threshold, trueStages));
    CountZero(alarms);
    forall i | 0 <= i < |alarms| ensures !alarms[i] {
      assert !NonAttacks(threshold, trueStages)[i];
    }
  }

  /** Every attack prediction on a step without an attack is either excused by a successful
      detection or a false alarm. */
  lemma CallsDivide(threshold: int, trueStages: seq<int>, stages: seq<int>, detections: seq<Detection>)
    requires |trueStages| == |stages|
    ensures Count(FalseAlarms(threshold, trueStages, stages, detections)) +
            Count(ExcusedCalls(threshold, trueStages, stages, detections)) ==
            Count(AttackCalls(threshold, trueStages, stages))
  {
    CountSplits(FalseAlarms(threshold, trueStages, stages, detections),
                ExcusedCalls(threshold, trueStages, stages, detections),
                AttackCalls(threshold, trueStages, stages));
  }

  /** The false alarms with predicted stage lo..hi-1, summed stage by stage. */
  function StageSum(mask: seq<bool>, stages: seq<int>, lo: int, hi: int): nat
    requires |mask| == |stages|
    decreases hi - lo
  {
    if lo >= hi then 0 else StageSum(mask, stages, lo, hi - 1) + Count(OfStage(mask, stages, hi - 1))
  }

  function InRange(mask: seq<bool>, stages: seq<int>, lo: int, hi: int): (r: seq<bool>)
    requires |mask| == |stages|
    ensures |r| == |mask|
  {
    seq(|mask|, i requires 0 <= i < |mask| => mask[i] && lo <= stages[i] < hi)
  }

  lemma {:induction false} StageSumCounts(mask: seq<bool>, stages: seq<int>, lo: int, hi: int)
    requires |mask| == |stages|
    ensures StageSum(mask, stages, lo, hi) == Count(InRange(mask, stages, lo, hi))
    decreases hi - lo
  {
    if lo >= hi {
      CountZero(InRange(mask, stages, lo, hi));
    } else {
      StageSumCounts(mask, stages, lo, hi - 1);
      CountSplits(InRange(mask, stages, lo, hi - 1), OfStage(mask, stages, hi - 1), InRange(mask, stages, lo, hi));
    }
  }

  /** The per-stage breakdown sums to the false alarms exactly when every false alarm predicts one
      of the five known stages. */
  lemma BreakdownComplete(threshold: int, trueStages: seq<int>, stages: seq<int>, detections: seq<Detection>)
    requires |trueStages| == |stages|
    ensures var alarms := FalseAlarms(threshold, trueStages, stages, detections);
      StageSum(alarms, stages, if threshold < 0 then 0 else threshold, 5) == Count(alarms) <==>
        forall i :: 0 <= i < |alarms| && alarms[i] ==> 0 <= stages[i] < 5
  {
    var alarms := FalseAlarms(threshold, trueStages, stages, detections);
    var lo := if threshold < 0 then 0 else threshold;
    var known := InRange(alarms, stages, lo, STAGE_COUNT);
    var unknown := seq(|alarms|, i requires 0 <= i < |alarms| => alarms[i] && !(lo <= stages[i] < STAGE_COUNT));
    StageSumCounts(alarms, stages, lo, STAGE_COUNT);
    CountSplits(known, unknown, alarms);
    CountZero(unknown);
    assert (forall i :: 0 <= i < |unknown| ==> !unknown[i]) <==>
      (forall i :: 0 <= i < |alarms| && alarms[i] ==> 0 <= stages[i] < STAGE_COUNT);
  }
}
