/** forecasting/models/markov_chain.py: a first-order Markov chain over attack stages. */
module MarkovChain {
  import opened Common
  import opened LinearAlgebra

  const NORMAL: nat := 0

  // ---------- counting observed transitions ----------

  /** How many of the first t consecutive pairs of s are (i, j). */
  function PairsUpTo(s: seq<int>, i: int, j: int, t: nat): nat
    requires t == 0 || t < |s|
  {
    if t == 0 then 0
    else PairsUpTo(s, i, j, t - 1) + if s[t - 1] == i && s[t] == j then 1 else 0
  }

  /** How many transitions i -> j the sequence contains. */
  function Pairs(s: seq<int>, i: int, j: int): nat {
    if s == [] then 0 else PairsUpTo(s, i, j, |s| - 1)
  }

  /** How many transitions i -> j the first k sequences contain together. */
  function PairsIn(seqs: seq<seq<int>>, k: nat, i: int, j: int): nat
    requires k <= |seqs|
  {
    if k == 0 then 0 else PairsIn(seqs, k - 1, i, j) + Pairs(seqs[k - 1], i, j)
  }

  /** Row i of the transition counts. */
  function CountRow(seqs: seq<seq<int>>, n: nat, i: int): (row: seq<real>)
    ensures |row| == n
  {
    seq(n, j => PairsIn(seqs, |seqs|, i, j) as real)
  }

  /** The denominator of row i after additive smoothing. */
  function RowTotal(seqs: seq<seq<int>>, n: nat, i: int, alpha: real): real {
    Sum(CountRow(seqs, n, i)) + Times(n as real, alpha)
  }

  /** m is the additively smoothed and normalised table of transition frequencies. */
  ghost predicate IsFit(m: seq<seq<real>>, seqs: seq<seq<int>>, n: nat, alpha: real) {
    && |m| == n
    && Square(m)
    && forall i, j :: 0 <= i < n && 0 <= j < n ==>
      && RowTotal(seqs, n, i, alpha) != 0.0
      && m[i][j] == (PairsIn(seqs, |seqs|, i, j) as real + alpha) / RowTotal(seqs, n, i, alpha)
  }

  /** The division that numpy does to one row. */
  function Normalised(counts: seq<real>, alpha: real, total: real): (r: seq<real>)
    requires total != 0.0
    ensures |r| == |counts|
  {
    seq(|counts|, j requires 0 <= j < |counts| => (counts[j] + alpha) / total)
  }

  /** A smoothed row divided by its own total sums to one. */
  lemma NormalisedSumsToOne(counts: seq<real>, alpha: real, total: real)
    requires total == Sum(counts) + Times(|counts| as real, alpha) && total != 0.0
    ensures Sum(Normalised(counts, alpha, total)) == 1.0
  {
    var smoothed := seq(|counts|, j requires 0 <= j < |counts| => counts[j] + alpha);
    SmoothedSum(counts, smoothed, alpha);
    DividedByOwnSum(smoothed, Normalised(counts, alpha, total), total);
  }

  lemma DividedByOwnSum(v: seq<real>, r: seq<real>, total: real)
    requires |r| == |v| && total == Sum(v) && total != 0.0
    requires forall j :: 0 <= j < |v| ==> r[j] == v[j] / total
    ensures Sum(r) == 1.0
  {
    hide Times;
    var x := Reciprocal(total);
    forall j | 0 <= j < |v| ensures r[j] == Times(x, v[j]) {
      Quotient(v[j], total, x);
    }
    SumScale(v, r, x);
  }

  lemma Reciprocal(b: real) returns (x: real)
    requires b != 0.0
    ensures Times(x, b) == 1.0
  {
    x := 1.0 / b;
  }

  lemma Quotient(a: real, b: real, x: real)
    requires b != 0.0 && Times(x, b) == 1.0
    ensures a / b == Times(x, a)
  {
    var q := a / b;
    assert q * b == a;
    assert x * a == x * (q * b) == (x * b) * q;
  }

  lemma {:induction false} SmoothedSum(counts: seq<real>, smoothed: seq<real>, alpha: real)
    requires |smoothed| == |counts| && forall j :: 0 <= j < |counts| ==> smoothed[j] == counts[j] + alpha
    ensures Sum(smoothed) == Sum(counts) + Times(|counts| as real, alpha)
  {
    if counts != [] {
      SmoothedSum(counts[1..], smoothed[1..], alpha);
      TimesSuccessor(|counts| - 1, alpha);
    } else {
      assert Times(0.0, alpha) == 0.0;
    }
  }

  lemma NormalisedPositive(counts: seq<real>, alpha: real, total: real)
    requires total == Sum(counts) + Times(|counts| as real, alpha)
    requires alpha > 0.0 && |counts| > 0 && forall j :: 0 <= j < |counts| ==> counts[j] >= 0.0
    ensures total > 0.0
    ensures forall j :: 0 <= j < |counts| ==> Normalised(counts, alpha, total)[j] > 0.0
  {
    SumNonNegative(counts);
    TimesPositive(|counts| as real, alpha);
    hide Times;
    forall j | 0 <= j < |counts| ensures Normalised(counts, alpha, total)[j] > 0.0 {
      QuotientPositive(counts[j] + alpha, total);
    }
  }

  lemma NormalisedNonNegative(counts: seq<real>, alpha: real, total: real)
    requires total == Sum(counts) + Times(|counts| as real, alpha) && total != 0.0
    requires alpha >= 0.0 && forall j :: 0 <= j < |counts| ==> counts[j] >= 0.0
    ensures forall j :: 0 <= j < |counts| ==> Normalised(counts, alpha, total)[j] >= 0.0
  {
    SumNonNegative(counts);
    TimesNonNegative(|counts| as real, alpha);
    hide Times;
    forall j | 0 <= j < |counts| ensures Normalised(counts, alpha, total)[j] >= 0.0 {
      QuotientNonNegative(counts[j] + alpha, total);
    }
  }

  lemma QuotientNonNegative(a: real, b: real)
    requires a >= 0.0 && b > 0.0
    ensures a / b >= 0.0
  {
  }

  lemma QuotientPositive(a: real, b: real)
    requires a > 0.0 && b > 0.0
    ensures a / b > 0.0
  {
  }

  /** Every row of a fitted table is a distribution, and with positive smoothing a strictly positive one. */
  lemma FitIsStochastic(m: seq<seq<real>>, seqs: seq<seq<int>>, n: nat, alpha: real)
    requires IsFit(m, seqs, n, alpha) && alpha >= 0.0
    ensures Stochastic(m)
    ensures alpha > 0.0 ==> forall i, j :: 0 <= i < n && 0 <= j < n ==> m[i][j] > 0.0
  {
    forall i | 0 <= i < n
      ensures Distribution(m[i]) && (alpha > 0.0 ==> forall j :: 0 <= j < n ==> m[i][j] > 0.0)
    {
      FitRow(m, seqs, n, alpha, i);
    }
  }

  lemma FitRow(m: seq<seq<real>>, seqs: seq<seq<int>>, n: nat, alpha: real, i: nat)
    requires IsFit(m, seqs, n, alpha) && alpha >= 0.0 && i < n
    ensures Distribution(m[i]) && (alpha > 0.0 ==> forall j :: 0 <= j < n ==> m[i][j] > 0.0)
  {
    assert m[i][0] == m[i][0];
    var row, total := CountRow(seqs, n, i), RowTotal(seqs, n, i, alpha);
    NormalisedNonNegative(row, alpha, total);
    NormalisedSumsToOne(row, alpha, total);
    if alpha > 0.0 {
      NormalisedPositive(row, alpha, total);
    }
    assert m[i] == Normalised(row, alpha, total);
  }

  /** Positive smoothing always leaves a divisor, so fitting cannot fail. */
  lemma SmoothedTotalPositive(seqs: seq<seq<int>>, n: nat, i: int, alpha: real)
    requires n > 0 && alpha > 0.0
    ensures RowTotal(seqs, n, i, alpha) > 0.0
  {
    SumNonNegative(CountRow(seqs, n, i));
    TimesPositive(n as real, alpha);
  }

  lemma AllTotalsPositive(seqs: seq<seq<int>>, n: nat, alpha: real)
    requires n > 0 && alpha > 0.0
    ensures forall i :: 0 <= i < n ==> RowTotal(seqs, n, i, alpha) > 0.0
  {
    forall i | 0 <= i < n ensures RowTotal(seqs, n, i, alpha) > 0.0 {
      SmoothedTotalPositive(seqs, n, i, alpha);
    }
  }

  // ---------- the denominator is the number of transitions that leave the state ----------

  /** How many of the first t pairs of s leave state i for a valid state. */
  function LeavesUpTo(s: seq<int>, n: nat, i: int, t: nat): nat
    requires t == 0 || t < |s|
  {
    if t == 0 then 0
    else LeavesUpTo(s, n, i, t - 1) + if s[t - 1] == i && 0 <= s[t] < n then 1 else 0
  }

  function LeavesIn(seqs: seq<seq<int>>, n: nat, k: nat, i: int): nat
    requires k <= |seqs|
  {
    if k == 0 then 0
    else LeavesIn(seqs, n, k - 1, i) +
         if seqs[k - 1] == [] then 0 else LeavesUpTo(seqs[k - 1], n, i, |seqs[k - 1]| - 1)
  }

  lemma {:induction false} PairsSum(s: seq<int>, n: nat, i: int, t: nat, row: seq<real>)
    requires t == 0 || t < |s|
    requires |row| == n && forall j :: 0 <= j < n ==> row[j] == PairsUpTo(s, i, j, t) as real
    ensures Sum(row) == LeavesUpTo(s, n, i, t) as real
  {
    if t == 0 {
      SumZero(row);
    } else {
      var before := seq(n, j => PairsUpTo(s, i, j, t - 1) as real);
      PairsSum(s, n, i, t - 1, before);
      if s[t - 1] == i && 0 <= s[t] < n {
        OneHotDistribution(n, s[t]);
        SumAdd(before, OneHot(n, s[t]), row);
      } else {
        assert row == before;
      }
    }
  }

  /** Row i of the counts sums to the number of transitions observed out of state i. */
  lemma {:induction false} CountRowTotal(seqs: seq<seq<int>>, n: nat, k: nat, i: int, row: seq<real>)
    requires k <= |seqs|
    requires |row| == n && forall j :: 0 <= j < n ==> row[j] == PairsIn(seqs, k, i, j) as real
    ensures Sum(row) == LeavesIn(seqs, n, k, i) as real
  {
    if k == 0 {
      SumZero(row);
    } else {
      var before := seq(n, j => PairsIn(seqs, k - 1, i, j) as real);
      CountRowTotal(seqs, n, k - 1, i, before);
      var s := seqs[k - 1];
      var last := seq(n, j => Pairs(s, i, j) as real);
      if s == [] { SumZero(last); } else { PairsSum(s, n, i, |s| - 1, last); }
      SumAdd(before, last, row);
    }
  }

  // ---------- the counts are numbers of positions ----------

  /** Where the first k sequences step from i to j: which sequence, and which position in it. */
  ghost function Steps(seqs: seq<seq<int>>, k: nat, i: int, j: int): set<(int, int)>
    requires k <= |seqs|
  {
    set a, t | 0 <= a < k && 0 <= t < |seqs[a]| - 1 && seqs[a][t] == i && seqs[a][t + 1] == j :: (a, t)
  }

  /** The same for the first t steps of sequence k alone. */
  ghost function StepsOf(seqs: seq<seq<int>>, k: nat, t: nat, i: int, j: int): set<(int, int)>
    requires k < |seqs| && (t == 0 || t < |seqs[k]|)
  {
    set b | 0 <= b < t && seqs[k][b] == i && seqs[k][b + 1] == j :: (k, b)
  }

  lemma {:induction false} StepsOfCount(seqs: seq<seq<int>>, k: nat, t: nat, i: int, j: int)
    requires k < |seqs| && (t == 0 || t < |seqs[k]|)
    ensures |StepsOf(seqs, k, t, i, j)| == PairsUpTo(seqs[k], i, j, t)
  {
    if t == 0 {
      assert StepsOf(seqs, k, t, i, j) == {};
    } else {
      StepsOfCount(seqs, k, t - 1, i, j);
      var last: set<(int, int)> := if seqs[k][t - 1] == i && seqs[k][t] == j then {(k, t - 1)} else {};
      assert StepsOf(seqs, k, t, i, j) == StepsOf(seqs, k, t - 1, i, j) + last;
    }
  }

  lemma {:induction false} PairsAreSteps(seqs: seq<seq<int>>, k: nat, i: int, j: int)
    requires k <= |seqs|
    ensures PairsIn(seqs, k, i, j) == |Steps(seqs, k, i, j)|
  {
    if k == 0 {
      assert Steps(seqs, k, i, j) == {};
    } else {
      var n := if seqs[k - 1] == [] then 0 else |seqs[k - 1]| - 1;
      PairsAreSteps(seqs, k - 1, i, j);
      StepsOfCount(seqs, k - 1, n, i, j);
      assert Steps(seqs, k, i, j) == Steps(seqs, k - 1, i, j) + StepsOf(seqs, k - 1, n, i, j);
    }
  }

  /** A fitted row sums to one, and its entries are in the ratio of the smoothed numbers of positions at which
      the sequences take that step. */
  lemma FitInProportion(m: seq<seq<real>>, seqs: seq<seq<int>>, n: nat, alpha: real, i: nat, j: nat, l: nat)
    requires IsFit(m, seqs, n, alpha) && i < n && j < n && l < n
    ensures Sum(m[i]) == 1.0
    ensures Times(m[i][j], |Steps(seqs, |seqs|, i, l)| as real + alpha) ==
            Times(m[i][l], |Steps(seqs, |seqs|, i, j)| as real + alpha)
  {
    var row, total := CountRow(seqs, n, i), RowTotal(seqs, n, i, alpha);
    PairsAreSteps(seqs, |seqs|, i, j);
    PairsAreSteps(seqs, |seqs|, i, l);
    assert m[i][j] == m[i][j];
    NormalisedSumsToOne(row, alpha, total);
    assert m[i] == Normalised(row, alpha, total);
    QuotientsInProportion(row[j] + alpha, row[l] + alpha, total);
  }

  lemma QuotientsInProportion(a: real, b: real, total: real)
    requires total != 0.0
    ensures Times(a / total, b) == Times(b / total, a)
  {
    var x := a / total;
    var y := b / total;
    assert x * total == a && y * total == b;
    assert x * b == x * (y * total) == y * (x * total) == y * a;
  }

  /** The inner counting loop: one pass over the consecutive pairs of a sequence, ignoring
      pairs that name a state outside the table. */
  method AddPairs(counts: array2<real>, s: seq<int>)
    requires s != []
    modifies counts
    ensures forall i, j :: 0 <= i < counts.Length0 && 0 <= j < counts.Length1 ==>
      counts[i, j] == old(counts[i, j]) + Pairs(s, i, j) as real
  {
    for t := 0 to |s| - 1
      invariant forall i, j :: 0 <= i < counts.Length0 && 0 <= j < counts.Length1 ==>
        counts[i, j] == old(counts[i, j]) + PairsUpTo(s, i, j, t) as real
    {
      if 0 <= s[t] < counts.Length0 && 0 <= s[t + 1] < counts.Length1 {
        counts[s[t], s[t + 1]] := counts[s[t], s[t + 1]] + 1.0;
      }
    }
  }

  // ---------- the model object ----------

  class Chain {
    const nStates: nat
    var transitionMatrix: seq<seq<real>>
    var isFitted: bool

    predicate Valid()
      reads this
    {
      nStates > 0 && |transitionMatrix| == nStates && Square(transitionMatrix)
    }

    /** Uniform transitions until the chain is fitted. */
    constructor (n: nat)
      requires n > 0
      ensures Valid() && nStates == n && !isFitted && Stochastic(transitionMatrix)
      ensures forall i, j :: 0 <= i < n && 0 <= j < n ==> transitionMatrix[i][j] == 1.0 / n as real
    {
      nStates := n;
      var row := seq(n, _ => 1.0 / n as real);
      UniformDistribution(row);
      transitionMatrix := seq(n, _ => row);
      isFitted := false;
    }

    /** Counts the transitions and normalises the smoothed counts. A row whose smoothed total is
        zero has no quotient (numpy fills it with NaN); the fit is then reported as undefined. */
    method Fit(seqs: seq<seq<int>>, alpha: real) returns (defined: bool)
      requires Valid()
      modifies this
      ensures Valid()
      ensures defined <==> forall i :: 0 <= i < nStates ==> RowTotal(seqs, nStates, i, alpha) != 0.0
      ensures defined ==> isFitted && IsFit(transitionMatrix, seqs, nStates, alpha)
      ensures !defined ==> transitionMatrix == old(transitionMatrix) && isFitted == old(isFitted)
      ensures alpha > 0.0 ==> defined
    {
      if alpha > 0.0 {
        AllTotalsPositive(seqs, nStates, alpha);
      }
      var counts := CountTransitions(seqs);
      var rows: seq<seq<real>> := [];
      defined := true;
      for i := 0 to nStates
        invariant defined <==> forall k :: 0 <= k < i ==> RowTotal(seqs, nStates, k, alpha) != 0.0
        invariant defined ==> |rows| == i
        invariant defined ==> forall k :: 0 <= k < i ==>
          && RowTotal(seqs, nStates, k, alpha) != 0.0
          && rows[k] == Normalised(CountRow(seqs, nStates, k), alpha, RowTotal(seqs, nStates, k, alpha))
        invariant transitionMatrix == old(transitionMatrix) && isFitted == old(isFitted)
      {
        var row := seq(nStates, j requires 0 <= j < nStates reads counts => counts[i, j]);
        assert row == CountRow(seqs, nStates, i);
        var total := Sum(row) + Times(nStates as real, alpha);
        assert total == RowTotal(seqs, nStates, i, alpha);
        if total == 0.0 {
          defined := false;
        } else if defined {
          rows := rows + [Normalised(row, alpha, total)];
        }
      }
      if defined {
        transitionMatrix, isFitted := rows, true;
      }
    }

    method CountTransitions(seqs: seq<seq<int>>) returns (counts: array2<real>)
      requires Valid()
      ensures fresh(counts) && counts.Length0 == nStates && counts.Length1 == nStates
      ensures forall i, j :: 0 <= i < nStates && 0 <= j < nStates ==>
        counts[i, j] == PairsIn(seqs, |seqs|, i, j) as real
    {
      counts := new real[nStates, nStates]((i, j) => 0.0);
      for k := 0 to |seqs|
        invariant forall i, j :: 0 <= i < nStates && 0 <= j < nStates ==>
          counts[i, j] == PairsIn(seqs, k, i, j) as real
      {
        var s := seqs[k];
        if |s| >= 2 {
          AddPairs(counts, s);
        }
      }
    }

    function Predict(current: int): (next: nat)
      requires Valid()
      reads this
      ensures next < nStates
    {
      if 0 <= current < nStates then Argmax(transitionMatrix[current]) else NORMAL
    }

    /** The distribution that predict_proba and predict_trajectory_proba work with h steps ahead. */
    function Forecast(current: int, h: nat): (v: seq<real>)
      requires Valid()
      reads this
      ensures |v| == nStates
    {
      if 0 <= current < nStates then Power(OneHot(nStates, current), transitionMatrix, h)
      else seq(nStates, _ => 1.0 / nStates as real)
    }

    lemma ForecastStep(current: int, h: nat)
      requires Valid() && 0 <= current < nStates
      ensures Forecast(current, 0) == OneHot(nStates, current)
      ensures Forecast(current, h + 1) == VecMat(Forecast(current, h), transitionMatrix)
    {
    }

    /** One step from a known stage is its row of the matrix; no step leaves the stage as it is. */
    lemma ForecastStarts(current: int, j: nat)
      requires Valid() && 0 <= current < nStates && j < nStates
      ensures Forecast(current, 0)[j] == if j == current then 1.0 else 0.0
      ensures Forecast(current, 1)[j] == transitionMatrix[current][j]
    {
      hide Times, Sum;
      var e := OneHot(nStates, current);
      var ts, column := Terms(e, transitionMatrix, j), OneHot(nStates, current);
      assert Power(e, transitionMatrix, 0) == e;
      PowerStep(e, transitionMatrix, 0);
      VecMatAt(e, transitionMatrix, j);
      forall i | 0 <= i < nStates ensures ts[i] == Times(transitionMatrix[current][j], column[i]) {
        TimesCommutes(e[i], transitionMatrix[i][j]);
        TimesDistributes(transitionMatrix[i][j], 0.0, 0.0);
        TimesDistributes(transitionMatrix[current][j], 0.0, 0.0);
      }
      SumScale(column, ts, transitionMatrix[current][j]);
      OneHotDistribution(nStates, current);
      TimesOne(transitionMatrix[current][j]);
    }

    /** The next stage that predict names is where a trajectory begins, for unknown stages too. */
    lemma PredictIsFirstStep(current: int)
      requires Valid()
      ensures Predict(current) == Argmax(Forecast(current, 1))
    {
      hide Power, VecMat;
      var v := Forecast(current, 1);
      if 0 <= current < nStates {
        forall j | 0 <= j < nStates ensures v[j] == transitionMatrix[current][j] {
          ForecastStarts(current, j);
        }
        assert v == transitionMatrix[current];
      } else {
        assert v[NORMAL] == v[Argmax(v)];
      }
    }

    method PredictTrajectory(current: int, steps: int) returns (trajectory: seq<nat>)
      requires Valid()
      ensures |trajectory| == if steps < 0 then 0 else steps
      ensures forall h :: 0 <= h < |trajectory| ==>
        trajectory[h] == if 0 <= current < nStates then Argmax(Forecast(current, h + 1)) else NORMAL
    {
      hide Power, VecMat, Argmax, Forecast, OneHot, Square;
      if !(0 <= current < nStates) {
        return seq(if steps < 0 then 0 else steps, _ => NORMAL);
      }
      trajectory := [];
      var stateVec := OneHot(nStates, current);
      ForecastStep(current, 0);
      var h := 0;
      while h < steps
        invariant h == |trajectory| && (h <= steps || h == 0)
        invariant stateVec == Forecast(current, h)
        invariant forall k :: 0 <= k < h ==> trajectory[k] == Argmax(Forecast(current, k + 1))
      {
        ForecastStep(current, h);
        stateVec := VecMat(stateVec, transitionMatrix);
        trajectory := trajectory + [Argmax(stateVec)];
        h := h + 1;
      }
    }

    method PredictTrajectoryProba(current: int, steps: int) returns (distributions: seq<seq<real>>)
      requires Valid()
      ensures |distributions| == if steps < 0 then 0 else steps
      ensures forall h :: 0 <= h < |distributions| ==> distributions[h] == Forecast(current, h + 1)
      ensures !(0 <= current < nStates) ==> forall h :: 0 <= h < |distributions| ==>
        |distributions[h]| == nStates && forall j :: 0 <= j < nStates ==> distributions[h][j] == 1.0 / nStates as real
    {
      hide Power, VecMat;
      if !(0 <= current < nStates) {
        var uniform := seq(nStates, _ => 1.0 / nStates as real);
        return seq(if steps < 0 then 0 else steps, _ => uniform);
      }
      distributions := [];
      var stateVec := OneHot(nStates, current);
      ForecastStep(current, 0);
      var h := 0;
      while h < steps
        invariant h == |distributions| && (h <= steps || h == 0)
        invariant stateVec == Forecast(current, h)
        invariant forall k :: 0 <= k < h ==> distributions[k] == Forecast(current, k + 1)
      {
        ForecastStep(current, h);
        stateVec := VecMat(stateVec, transitionMatrix);
        distributions := distributions + [stateVec];
        h := h + 1;
      }
    }

    // ---------- forecast algebra ----------

    /** Whatever the stage and the horizon, the forecast of a stochastic chain is a distribution. */
    lemma ForecastIsDistribution(current: int, h: nat)
      requires Valid() && Stochastic(transitionMatrix)
      ensures Distribution(Forecast(current, h))
    {
      if 0 <= current < nStates {
        OneHotDistribution(nStates, current);
        PowerDistribution(OneHot(nStates, current), transitionMatrix, h);
      } else {
        UniformDistribution(Forecast(current, h));
      }
    }

    /** The b-step forecasts of stage j from all stages, weighted by the a-step probabilities. */
    ghost function MixedForecast(current: int, a: nat, b: nat, j: nat): (r: seq<real>)
      requires Valid() && j < nStates
      reads this
      ensures |r| == nStates
      ensures forall k :: 0 <= k < nStates ==> r[k] == Times(Forecast(current, a)[k], Forecast(k, b)[j])
    {
      var w, m, n := Forecast(current, a), transitionMatrix, nStates;
      seq(n, k requires 0 <= k < n => Times(w[k], Power(OneHot(n, k), m, b)[j]))
    }

    /** Chapman-Kolmogorov: a + b steps are the b-step forecasts of all stages, mixed by the
        probabilities of being in each stage after a steps. */
    lemma ForecastComposes(current: int, a: nat, b: nat, j: nat)
      requires Valid() && 0 <= current < nStates && j < nStates
      ensures Forecast(current, a + b)[j] == Sum(MixedForecast(current, a, b, j))
    {
      hide Times;
      var v := Forecast(current, a);
      PowerAdd(OneHot(nStates, current), transitionMatrix, a, b);
      PowerIsMixture(v, transitionMatrix, b, j);
      assert Mixture(v, transitionMatrix, b, j) == MixedForecast(current, a, b, j);
    }
  }
}
