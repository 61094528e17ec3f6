/** forecasting/state_labeler.py: attack-stage labels from anomaly scores, with SURGE promoted to
    SUSTAINED when it persists. */
module StateLabeler {

  const NORMAL := 0
  const RECON := 1
  const ESCALATION := 2
  const SURGE := 3
  const SUSTAINED := 4

  const NORMAL_MAX := 0.30
  const RECON_MAX := 0.50
  const ESCALATION_MAX := 0.70
  const MIN_CONSECUTIVE := 3

  function LabelState(score: real): (stage: int)
    ensures NORMAL <= stage <= SURGE
    ensures stage >= RECON <==> score >= 0.30
    ensures stage >= ESCALATION <==> score >= 0.50
    ensures stage == SURGE <==> score >= 0.70
  {
    if score < NORMAL_MAX then NORMAL
    else if score < RECON_MAX then RECON
    else if score < ESCALATION_MAX then ESCALATION
    else SURGE
  }

  function RawLabels(scores: seq<real>): (raw: seq<int>)
    ensures |raw| == |scores| && forall i :: 0 <= i < |raw| ==> raw[i] == LabelState(scores[i])
  {
    seq(|scores|, i requires 0 <= i < |scores| => LabelState(scores[i]))
  }

  /** All steps l..r-1 are SURGE. */
  ghost predicate SurgeRun(raw: seq<int>, l: int, r: int) {
    0 <= l <= r <= |raw| && forall j :: l <= j < r ==> raw[j] == SURGE
  }

  /** The run cannot be extended on either side. */
  ghost predicate MaximalRun(raw: seq<int>, l: int, r: int) {
    SurgeRun(raw, l, r) && l < r && (l == 0 || raw[l - 1] != SURGE) && (r == |raw| || raw[r] != SURGE)
  }

  /** Step i lies in a maximal SURGE run of at least three steps. */
  ghost predicate InSustainedRun(raw: seq<int>, i: int) {
    exists l, r :: l <= i < r && MaximalRun(raw, l, r) && r - l >= MIN_CONSECUTIVE
  }

  /** Every step of a SURGE run lies in one maximal run around it. */
  lemma ExtendRun(raw: seq<int>, l: int, r: int) returns (lo: int, hi: int)
    requires SurgeRun(raw, l, r) && l < r
    ensures lo <= l && r <= hi && MaximalRun(raw, lo, hi)
  {
    lo, hi := l, r;
    while lo > 0 && raw[lo - 1] == SURGE
      invariant lo <= l && SurgeRun(raw, lo, hi)
    {
      lo := lo - 1;
    }
    while hi < |raw| && raw[hi] == SURGE
      invariant r <= hi && SurgeRun(raw, lo, hi)
      decreases |raw| - hi
    {
      hi := hi + 1;
    }
  }

  /** The innermost loop: marks the current run. */
  method Promote(refined: array<int>, lo: nat, hi: nat)
    requires lo <= hi <= refined.Length
    modifies refined
    ensures forall k :: 0 <= k < refined.Length ==> refined[k] == if lo <= k < hi then SUSTAINED else old(refined[k])
  {
    for j := lo to hi
      invariant forall k :: 0 <= k < refined.Length ==> refined[k] == if lo <= k < j then SUSTAINED else old(refined[k])
    {
      refined[j] := SUSTAINED;
    }
  }

  /** label_sequence: a step is SUSTAINED if and only if it lies in a maximal SURGE run of at least
      three steps; every other step keeps its point-in-time label. */
  method LabelSequence(scores: seq<real>) returns (labels: seq<int>)
    ensures |labels| == |scores|
    ensures forall i :: 0 <= i < |labels| ==> (labels[i] == SUSTAINED <==> InSustainedRun(RawLabels(scores), i))
    ensures forall i :: 0 <= i < |labels| ==> labels[i] == SUSTAINED || labels[i] == RawLabels(scores)[i]
  {
    hide InRunUpTo, InSustainedRun;
    var raw := RawLabels(scores);
    var refined := new int[|raw|](i requires 0 <= i < |raw| => raw[i]);
    var consecutiveSurge := 0;
    for i := 0 to |raw|
      invariant 0 <= consecutiveSurge <= i && SurgeRun(raw, i - consecutiveSurge, i)
      invariant i - consecutiveSurge == 0 || raw[i - consecutiveSurge - 1] != SURGE
      invariant forall j :: i <= j < |raw| ==> refined[j] == raw[j]
      invariant forall j :: 0 <= j < i ==> refined[j] == if InRunUpTo(raw, i, j) then SUSTAINED else raw[j]
    {
      ghost var before := refined[..];
      if raw[i] == SURGE {
        consecutiveSurge := consecutiveSurge + 1;
        if consecutiveSurge >= MIN_CONSECUTIVE {
          Promote(refined, i - consecutiveSurge + 1, i + 1);
        }
      } else {
        consecutiveSurge := 0;
      }
      forall j | 0 <= j <= i ensures refined[j] == if InRunUpTo(raw, i + 1, j) then SUSTAINED else raw[j] {
        RunUpToGrows(raw, i, j, i + 1 - consecutiveSurge);
        assert j < i ==> before[j] == if InRunUpTo(raw, i, j) then SUSTAINED else raw[j];
      }
    }
    labels := refined[..];
    forall j | 0 <= j < |raw| ensures InRunUpTo(raw, |raw|, j) <==> InSustainedRun(raw, j) {
      RunUpToIsSustained(raw, j);
    }
  }

  /** Step j lies in a SURGE run of at least three steps that ends by step i. */
  ghost predicate InRunUpTo(raw: seq<int>, i: int, j: int) {
    exists l, r :: l <= j < r <= i && SurgeRun(raw, l, r) && r - l >= MIN_CONSECUTIVE
  }

  /** One more step, whose own SURGE run starts at lo, affects exactly the steps of that run. */
  lemma RunUpToGrows(raw: seq<int>, i: nat, j: nat, lo: int)
    requires j <= i < |raw| && SurgeRun(raw, lo, i + 1) && (lo == 0 || raw[lo - 1] != SURGE)
    ensures InRunUpTo(raw, i, j) ==> j < i
    ensures InRunUpTo(raw, i + 1, j) <==>
      InRunUpTo(raw, i, j) || (lo <= j && i + 1 - lo >= MIN_CONSECUTIVE)
  {
    if lo <= j && i + 1 - lo >= MIN_CONSECUTIVE {
      assert SurgeRun(raw, lo, i + 1);
    }
    if InRunUpTo(raw, i + 1, j) {
      var l, r :| l <= j < r <= i + 1 && SurgeRun(raw, l, r) && r - l >= MIN_CONSECUTIVE;
      if r == i + 1 {
        assert lo <= l;
      }
    }
  }

  lemma RunUpToIsSustained(raw: seq<int>, j: nat)
    requires j < |raw|
    ensures InRunUpTo(raw, |raw|, j) <==> InSustainedRun(raw, j)
  {
    if InRunUpTo(raw, |raw|, j) {
      var l, r :| l <= j < r <= |raw| && SurgeRun(raw, l, r) && r - l >= MIN_CONSECUTIVE;
      var lo, hi := ExtendRun(raw, l, r);
    }
    if InSustainedRun(raw, j) {
      var l, r :| l <= j < r && MaximalRun(raw, l, r) && r - l >= MIN_CONSECUTIVE;
      assert SurgeRun(raw, l, r);
    }
  }

  /** All scores l..r-1 are at least 0.70. */
  ghost predicate HighRun(scores: seq<real>, l: int, r: int) {
    0 <= l <= r <= |scores| && forall j :: l <= j < r ==> scores[j] >= 0.70
  }

  /** In terms of the scores: a step is sustained if and only if three or more in a row around it are at least
      0.70. */
  lemma SustainedByScores(scores: seq<real>, i: int)
    ensures InSustainedRun(RawLabels(scores), i) <==>
      exists l, r :: l <= i < r && HighRun(scores, l, r) && r - l >= 3
  {
    var raw := RawLabels(scores);
    if InSustainedRun(raw, i) {
      var l, r :| l <= i < r && MaximalRun(raw, l, r) && r - l >= MIN_CONSECUTIVE;
      forall j | l <= j < r ensures scores[j] >= 0.70 {
        assert raw[j] == SURGE;
      }
      assert HighRun(scores, l, r);
    }
    if l, r :| l <= i < r && HighRun(scores, l, r) && r - l >= 3 {
      assert SurgeRun(raw, l, r);
      var lo, hi := ExtendRun(raw, l, r);
    }
  }

  /** The label that step i ends up with. */
  ghost function Refined(scores: seq<real>, i: int): int
    requires 0 <= i < |scores|
  {
    if InSustainedRun(RawLabels(scores), i) then SUSTAINED else RawLabels(scores)[i]
  }

  /** Raising scores, anywhere and by any amount, never lowers any label. */
  lemma LabelsMonotone(scores: seq<real>, higher: seq<real>, i: int)
    requires |scores| == |higher| && forall j :: 0 <= j < |scores| ==> scores[j] <= higher[j]
    requires 0 <= i < |scores|
    ensures Refined(scores, i) <= Refined(higher, i)
  {
    var raw, raw' := RawLabels(scores), RawLabels(higher);
    if InSustainedRun(raw, i) {
      var l, r :| l <= i < r && MaximalRun(raw, l, r) && r - l >= MIN_CONSECUTIVE;
      forall j | l <= j < r ensures raw'[j] == SURGE {
        assert raw[j] == SURGE && scores[j] <= higher[j];
      }
      assert SurgeRun(raw', l, r);
      var lo, hi := ExtendRun(raw', l, r);
    } else {
      assert scores[i] <= higher[i];
    }
  }
}
