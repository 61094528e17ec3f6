/** forecasting/attack_progression.py: how likely an attack escalates, recedes or stays. */
module AttackProgression {
  import opened Common
  import opened LinearAlgebra
  import opened MarkovChain

  class Model {
    const markov: Chain
    const nStates: nat

    constructor (chain: Chain)
      ensures markov == chain && nStates == chain.nStates
    {
      markov := chain;
      nStates := chain.nStates;
    }

    predicate Valid()
      reads markov
    {
      markov.Valid() && nStates == markov.nStates
    }

    function EscalationProbability(stage: int): real
      requires Valid()
      reads markov
    {
      if !(0 <= stage < nStates) then 0.0
      else if stage == nStates - 1 then 0.0
      else Sum(markov.transitionMatrix[stage][stage + 1..])
    }

    function DeescalationProbability(stage: int): real
      requires Valid()
      reads markov
    {
      if !(0 <= stage < nStates) then 0.0
      else if stage == 0 then 0.0
      else Sum(markov.transitionMatrix[stage][..stage])
    }

    function StabilityProbability(stage: int): real
      requires Valid()
      reads markov
    {
      if !(0 <= stage < nStates) then 1.0 else markov.transitionMatrix[stage][stage]
    }

    /** The three outcomes are exhaustive and exclusive: for every stage, valid or not, the
        probabilities are nonnegative and sum to one. */
    lemma OutcomesSumToOne(stage: int)
      requires Valid() && Stochastic(markov.transitionMatrix)
      ensures EscalationProbability(stage) + DeescalationProbability(stage) + StabilityProbability(stage) == 1.0
      ensures EscalationProbability(stage) >= 0.0 && DeescalationProbability(stage) >= 0.0
      ensures StabilityProbability(stage) >= 0.0
      ensures !(0 <= stage < nStates) ==> StabilityProbability(stage) == 1.0
    {
      if 0 <= stage < nStates {
        var row := markov.transitionMatrix[stage];
        assert Distribution(row);
        assert row == row[..stage] + ([row[stage]] + row[stage + 1..]);
        SumAppend(row[..stage], [row[stage]] + row[stage + 1..]);
        SumAppend([row[stage]], row[stage + 1..]);
        SumNonNegative(row[..stage]);
        SumNonNegative(row[stage + 1..]);
      }
    }

    /** Escalating is moving to a higher stage and de-escalating to a lower one: for a known stage, the mass that
        the one-step forecast puts above it, below it and on it. */
    lemma OutcomesAreMass(stage: int, above: seq<real>, below: seq<real>)
      requires Valid() && 0 <= stage < nStates && |above| == |below| == nStates
      requires forall j :: 0 <= j < nStates ==> above[j] == if j > stage then markov.Forecast(stage, 1)[j] else 0.0
      requires forall j :: 0 <= j < nStates ==> below[j] == if j < stage then markov.Forecast(stage, 1)[j] else 0.0
      ensures EscalationProbability(stage) == Sum(above)
      ensures DeescalationProbability(stage) == Sum(below)
      ensures StabilityProbability(stage) == markov.Forecast(stage, 1)[stage]
    {
      var row := markov.transitionMatrix[stage];
      forall j | 0 <= j < nStates ensures markov.Forecast(stage, 1)[j] == row[j] {
        markov.ForecastStarts(stage, j);
      }
      assert above == above[..stage + 1] + above[stage + 1..] && above[stage + 1..] == row[stage + 1..];
      assert below == below[..stage] + below[stage..] && below[..stage] == row[..stage];
      SumAppend(above[..stage + 1], above[stage + 1..]);
      SumAppend(below[..stage], below[stage..]);
      SumZero(above[..stage + 1]);
      SumZero(below[stage..]);
    }

    /** The most likely stage at each horizon step, with its probability; ties go to the lowest stage. */
    method LikelyTrajectory(stage: int, horizon: int) returns (trajectory: seq<(nat, real)>)
      requires Valid()
      ensures |trajectory| == if horizon < 0 then 0 else horizon
      ensures forall h :: 0 <= h < |trajectory| ==>
        var v := markov.Forecast(stage, h + 1); trajectory[h] == (Argmax(v), v[Argmax(v)])
    {
      var distributions := markov.PredictTrajectoryProba(stage, horizon);
      trajectory := [];
      for h := 0 to |distributions|
        invariant |trajectory| == h
        invariant forall k :: 0 <= k < h ==>
          var v := markov.Forecast(stage, k + 1); trajectory[k] == (Argmax(v), v[Argmax(v)])
      {
        var best := Argmax(distributions[h]);
        trajectory := trajectory + [(best, distributions[h][best])];
      }
    }

    /** The stages of the trajectory are the ones predict_trajectory reports, for invalid stages too. */
    lemma TrajectoryAgrees(stage: int, h: nat)
      requires Valid() && !(0 <= stage < nStates)
      ensures Argmax(markov.Forecast(stage, h)) == NORMAL
    {
      assert markov.Forecast(stage, h)[0] == markov.Forecast(stage, h)[Argmax(markov.Forecast(stage, h))];
    }

    /** No reported confidence is below that of a uniform guess. */
    lemma ConfidenceAtLeastUniform(stage: int, h: nat)
      requires Valid() && Stochastic(markov.transitionMatrix)
      ensures var v := markov.Forecast(stage, h); Times(|v| as real, v[Argmax(v)]) >= 1.0
    {
      hide Times;
      markov.ForecastIsDistribution(stage, h);
      ArgmaxAtLeastUniform(markov.Forecast(stage, h));
    }
  }
}
