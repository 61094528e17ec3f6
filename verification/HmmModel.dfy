/** forecasting/models/hmm_model.py: Viterbi decoding, fitting and forecasting of the hidden
    Markov model. Logarithm and emission density are parameters: every theorem holds for any. */
module HmmModel {
  import opened Common
  import opened LinearAlgebra
  import opened MarkovChain

  const LOG_FLOOR: real := 1e-12

  function Floored(p: real): real {
    if p < LOG_FLOOR then LOG_FLOOR else p
  }

  // ---------- what decoding means ----------

  /** The log-domain tables of one decoding problem: emit[t][s] is the log-density of the t-th
      observation in state s. */
  datatype Problem = Problem(n: nat, start: seq<real>, trans: seq<seq<real>>, emit: seq<seq<real>>) {
    predicate Valid() {
      && n > 0 && |start| == n && |trans| == n && Square(trans)
      && forall t :: 0 <= t < |emit| ==> |emit[t]| == n
    }

    /** A sequence of states, one for each observation. */
    ghost predicate IsPath(p: seq<nat>) {
      |p| == |emit| > 0 && forall i :: 0 <= i < |p| ==> p[i] < n
    }

    /** The joint log-score of the states p[0..t] and the observations 0..t. */
    ghost function ScoreUpTo(p: seq<nat>, t: nat): real
      requires Valid() && IsPath(p) && t < |p|
    {
      if t == 0 then start[p[0]] + emit[0][p[0]]
      else ScoreUpTo(p, t - 1) + trans[p[t - 1]][p[t]] + emit[t][p[t]]
    }

    /** The joint log-score of a whole state sequence and the observations. */
    ghost function Score(p: seq<nat>): real
      requires Valid() && IsPath(p)
    {
      ScoreUpTo(p, |p| - 1)
    }

    // ---------- the dynamic program ----------

    /** The pair (v, b) fills cell (t, s): v is the best score of entering state s from the
        previous row, and b is the first state that achieves it. */
    ghost predicate CellCorrect(prev: seq<real>, t: nat, s: nat, v: real, b: nat)
      requires Valid() && |prev| == n && t < |emit| && s < n
    {
      && b < n
      && v == prev[b] + trans[b][s] + emit[t][s]
      && forall i :: 0 <= i < n ==>
        && prev[i] + trans[i][s] + emit[t][s] <= v
        && (i < b ==> prev[i] + trans[i][s] + emit[t][s] < v)
    }

    /** Row t of the two tables is what the recursion prescribes. */
    ghost predicate RowCorrect(table: seq<seq<real>>, back: seq<seq<nat>>, t: nat)
      requires Valid() && t < |emit|
    {
      && t < |table| && t < |back| && |table[t]| == |back[t]| == n
      && (t == 0 ==> forall s :: 0 <= s < n ==> table[0][s] == start[s] + emit[0][s])
      && (t > 0 ==>
            && |table[t - 1]| == n
            && forall s: nat :: s < n ==> CellCorrect(table[t - 1], t, s, table[t][s], back[t][s]))
    }

    ghost predicate TablesCorrect(table: seq<seq<real>>, back: seq<seq<nat>>, k: nat) {
      && Valid() && k <= |emit| && |table| == |back| == k
      && forall t: nat :: t < k ==> RowCorrect(table, back, t)
    }

    /** The state before time t is the back-pointer of the state at time t. */
    ghost predicate StepFollows(back: seq<seq<nat>>, p: seq<nat>, t: nat)
      requires 0 < t < |p| <= |back|
    {
      p[t] < |back[t]| && p[t - 1] == back[t][p[t]]
    }

    /** p follows the back-pointers below time t. */
    ghost predicate FollowsBack(back: seq<seq<nat>>, p: seq<nat>, t: nat)
      requires t < |p| <= |back|
    {
      forall u: nat :: 0 < u <= t ==> StepFollows(back, p, u)
    }

    // ---------- optimality ----------

    /** A path that follows the back-pointers achieves the score that its last cell promises. */
    lemma {:induction false} TraceAchieves(table: seq<seq<real>>, back: seq<seq<nat>>, p: seq<nat>, t: nat)
      requires TablesCorrect(table, back, |emit|) && IsPath(p) && t < |p| && FollowsBack(back, p, t)
      ensures RowCorrect(table, back, t) && ScoreUpTo(p, t) == table[t][p[t]]
    {
      assert RowCorrect(table, back, t);
      if t == 0 {
      } else {
        assert StepFollows(back, p, t);
        assert CellCorrect(table[t - 1], t, p[t], table[t][p[t]], back[t][p[t]]);
        TraceAchieves(table, back, p, t - 1);
      }
    }

    /** No path scores above the cell it ends in. */
    lemma {:induction false} CellIsUpperBound(table: seq<seq<real>>, back: seq<seq<nat>>, p: seq<nat>, t: nat)
      requires TablesCorrect(table, back, |emit|) && IsPath(p) && t < |p|
      ensures RowCorrect(table, back, t) && ScoreUpTo(p, t) <= table[t][p[t]]
    {
      assert RowCorrect(table, back, t);
      if t == 0 {
      } else {
        assert CellCorrect(table[t - 1], t, p[t], table[t][p[t]], back[t][p[t]]);
        CellIsUpperBound(table, back, p, t - 1);
      }
    }

    /** Whoever enters a cell with its full score comes from a cell that was itself reached with
        its full score, and that does not precede the back-pointer. */
    lemma CellTies(prev: seq<real>, t: nat, s: nat, v: real, b: nat, i: nat, x: real)
      requires Valid() && |prev| == n && t < |emit| && s < n && i < n && CellCorrect(prev, t, s, v, b)
      requires x <= prev[i] && x + trans[i][s] + emit[t][s] == v
      ensures x == prev[i] && i >= b
    {
      assert prev[i] + trans[i][s] + emit[t][s] <= v;
    }

    /** Among the best paths into a cell, the one that follows the back-pointers is the
        reverse-lexicographically least. */
    lemma {:induction false} TraceIsLeast(table: seq<seq<real>>, back: seq<seq<nat>>, p: seq<nat>, q: seq<nat>, t: nat)
      requires TablesCorrect(table, back, |emit|) && IsPath(p) && IsPath(q) && t < |p| && FollowsBack(back, p, t)
      requires RowCorrect(table, back, t) && p[t] == q[t] && ScoreUpTo(q, t) == table[t][q[t]]
      ensures RevLexLeqUpTo(p, q, t)
    {
      assert RowCorrect(table, back, t);
      if t == 0 {
      } else {
        assert CellCorrect(table[t - 1], t, p[t], table[t][p[t]], back[t][p[t]]);
        assert StepFollows(back, p, t);
        CellIsUpperBound(table, back, q, t - 1);
        CellTies(table[t - 1], t, p[t], table[t][p[t]], back[t][p[t]], q[t - 1], ScoreUpTo(q, t - 1));
        if p[t - 1] == q[t - 1] {
          TraceIsLeast(table, back, p, q, t - 1);
        }
      }
    }

    /** p was decoded from correct tables: it ends in the first best cell of the last row. */
    ghost predicate DecodedFrom(table: seq<seq<real>>, back: seq<seq<nat>>, p: seq<nat>) {
      && TablesCorrect(table, back, |emit|) && IsPath(p) && FollowsBack(back, p, |p| - 1)
      && table[|p| - 1] != [] && p[|p| - 1] == Argmax(table[|p| - 1])
    }

    /** Decoding is globally optimal: its score is the maximum of the last table row, and no path
        does better; the paths that do as well are reverse-lexicographically no less. */
    lemma DecodedIsOptimal(table: seq<seq<real>>, back: seq<seq<nat>>, p: seq<nat>, q: seq<nat>)
      requires DecodedFrom(table, back, p) && IsPath(q)
      ensures Score(q) <= Score(p) == table[|p| - 1][Argmax(table[|p| - 1])]
      ensures Score(q) == Score(p) ==> RevLexLeq(p, q)
    {
      var t := |p| - 1;
      TraceAchieves(table, back, p, t);
      CellIsUpperBound(table, back, q, t);
      if Score(q) == Score(p) && p[t] == q[t] {
        TraceIsLeast(table, back, p, q, t);
      }
    }

    /** What decoding promises, without tables: a best path, ties going to the reverse-lexicographically
        least. */
    ghost predicate Best(p: seq<nat>)
      requires Valid()
    {
      && IsPath(p)
      && (forall q :: IsPath(q) ==> Score(q) <= Score(p))
      && (forall q :: IsPath(q) && Score(q) == Score(p) ==> RevLexLeq(p, q))
    }

    /** The promise determines the path. */
    lemma BestIsUnique(p: seq<nat>, q: seq<nat>)
      requires Valid() && Best(p) && Best(q)
      ensures p == q
    {
      assert Score(p) == Score(q);
      RevLexAntisymmetric(p, q, |p| - 1);
    }

    // ---------- from log-scores to probabilities ----------

    /** The joint probability of p[0..t] and the observations, the entries read as probabilities. */
    ghost function LikelihoodUpTo(p: seq<nat>, t: nat): real
      requires Valid() && IsPath(p) && t < |p|
    {
      if t == 0 then Times(start[p[0]], emit[0][p[0]])
      else Times(LikelihoodUpTo(p, t - 1), Times(trans[p[t - 1]][p[t]], emit[t][p[t]]))
    }

    ghost function Likelihood(p: seq<nat>): real
      requires Valid() && IsPath(p)
    {
      LikelihoodUpTo(p, |p| - 1)
    }

    /** Every entry of this problem is the logarithm of a positive entry of prob. */
    ghost predicate LogOf(prob: Problem, log: real -> real) {
      && Valid() && prob.Valid() && n == prob.n && |emit| == |prob.emit|
      && (forall s :: 0 <= s < n ==> prob.start[s] > 0.0 && start[s] == log(prob.start[s]))
      && (forall i, s :: 0 <= i < n && 0 <= s < n ==> prob.trans[i][s] > 0.0 && trans[i][s] == log(prob.trans[i][s]))
      && (forall t, s :: 0 <= t < |emit| && 0 <= s < n ==> prob.emit[t][s] > 0.0 && emit[t][s] == log(prob.emit[t][s]))
    }

    lemma {:induction false} ScoreIsLogLikelihood(prob: Problem, log: real -> real, p: seq<nat>, t: nat)
      requires LogOf(prob, log) && IsLogarithm(log) && IsPath(p) && t < |p|
      ensures prob.LikelihoodUpTo(p, t) > 0.0
      ensures ScoreUpTo(p, t) == log(prob.LikelihoodUpTo(p, t))
    {
      if t == 0 {
        LogOfProduct(log, prob.start[p[0]], prob.emit[0][p[0]]);
      } else {
        ScoreIsLogLikelihood(prob, log, p, t - 1);
        var step := Times(prob.trans[p[t - 1]][p[t]], prob.emit[t][p[t]]);
        LogOfProduct(log, prob.trans[p[t - 1]][p[t]], prob.emit[t][p[t]]);
        LogOfProduct(log, prob.LikelihoodUpTo(p, t - 1), step);
      }
    }

    /** Comparing log-scores is comparing joint probabilities. */
    lemma ScoresOrderAsLikelihoods(prob: Problem, log: real -> real, p: seq<nat>, q: seq<nat>)
      requires LogOf(prob, log) && IsLogarithm(log) && IsPath(p) && IsPath(q)
      ensures Score(q) <= Score(p) <==> prob.Likelihood(q) <= prob.Likelihood(p)
    {
      ScoreIsLogLikelihood(prob, log, p, |p| - 1);
      ScoreIsLogLikelihood(prob, log, q, |q| - 1);
      LogOrder(log, prob.Likelihood(p), prob.Likelihood(q));
    }

    // ---------- the imperative decoder ----------

    /** Fills the tables and backtracks: the result is a best path, ties going to the
        reverse-lexicographically least. */
    method Decode() returns (path: seq<nat>)
      requires Valid() && emit != []
      ensures Best(path)
    {
      var T := |emit|;
      var viterbiTable, backpointer, table, back := FillTables();
      var lastRow := seq(n, s requires 0 <= s < n reads viterbiTable => viterbiTable[T - 1, s]);
      assert RowCorrect(table, back, T - 1);
      assert lastRow == table[T - 1];
      path := Backtrack(backpointer, Argmax(lastRow), table, back);
      forall q | IsPath(q)
        ensures Score(q) <= Score(path)
        ensures Score(q) == Score(path) ==> RevLexLeq(path, q)
      {
        DecodedIsOptimal(table, back, path, q);
      }
    }

    method Backtrack(backpointer: array2<nat>, last: nat, ghost table: seq<seq<real>>, ghost back: seq<seq<nat>>)
      returns (path: seq<nat>)
      requires TablesCorrect(table, back, |emit|) && emit != [] && last < n
      requires Agrees(backpointer, back, |emit|)
      ensures IsPath(path) && FollowsBack(back, path, |path| - 1) && path[|path| - 1] == last
    {
      var T := |emit|;
      var bestPath := new nat[T](_ => 0);
      bestPath[T - 1] := last;
      var t := T - 1;
      while t > 0
        invariant 0 <= t < T && bestPath[T - 1] == last
        invariant forall u :: 0 <= u < T ==> bestPath[u] < n
        invariant forall u: nat :: t < u < T ==> StepFollows(back, bestPath[..], u)
        modifies bestPath
      {
        assert RowCorrect(table, back, t);
        assert CellCorrect(table[t - 1], t, bestPath[t], table[t][bestPath[t]], back[t][bestPath[t]]);
        ghost var before := bestPath[..];
        t := t - 1;
        bestPath[t] := backpointer[t + 1, bestPath[t + 1]];
        forall u: nat | t < u < T ensures StepFollows(back, bestPath[..], u) {
          assert u > t + 1 ==> StepFollows(back, before, u);
        }
      }
      path := bestPath[..];
    }

    /** The first k rows of an array hold the values of a table. */
    ghost predicate Agrees<T>(a: array2<T>, table: seq<seq<T>>, k: nat)
      reads a
    {
      && a.Length0 == |emit| && a.Length1 == n && k <= |emit| && k <= |table|
      && (forall t :: 0 <= t < k ==> |table[t]| == n)
      && forall t, s :: 0 <= t < k && 0 <= s < n ==> a[t, s] == table[t][s]
    }

    method FillTables() returns (viterbiTable: array2<real>, backpointer: array2<nat>,
        ghost table: seq<seq<real>>, ghost back: seq<seq<nat>>)
      requires Valid() && emit != []
      ensures TablesCorrect(table, back, |emit|)
      ensures Agrees(viterbiTable, table, |emit|) && Agrees(backpointer, back, |emit|)
    {
      hide CellCorrect, RowCorrect;
      viterbiTable := new real[|emit|, n]((t, s) => 0.0);
      backpointer := new nat[|emit|, n]((t, s) => 0);
      table, back := FirstRow(viterbiTable, backpointer);
      for t := 1 to |emit|
        invariant TablesCorrect(table, back, t)
        invariant Agrees(viterbiTable, table, t) && Agrees(backpointer, back, t)
      {
        ghost var row, pointers := FillRow(viterbiTable, backpointer, t, table, back);
        TablesExtend(table, back, row, pointers);
        table, back := table + [row], back + [pointers];
      }
    }

    /** The initialization at t = 0. */
    method FirstRow(viterbiTable: array2<real>, backpointer: array2<nat>)
      returns (ghost table: seq<seq<real>>, ghost back: seq<seq<nat>>)
      requires Valid() && emit != []
      requires viterbiTable.Length0 == backpointer.Length0 == |emit| && viterbiTable.Length1 == backpointer.Length1 == n
      modifies viterbiTable
      ensures TablesCorrect(table, back, 1)
      ensures Agrees(viterbiTable, table, 1) && Agrees(backpointer, back, 1)
    {
      for s := 0 to n
        invariant forall k :: 0 <= k < s ==> viterbiTable[0, k] == start[k] + emit[0][k]
      {
        viterbiTable[0, s] := start[s] + emit[0][s];
      }
      table := [seq(n, s requires 0 <= s < n && Valid() && emit != [] => start[s] + emit[0][s])];
      back := [seq(n, s requires 0 <= s < n reads backpointer => backpointer[0, s])];
    }

    lemma TablesExtend(table: seq<seq<real>>, back: seq<seq<nat>>, row: seq<real>, pointers: seq<nat>)
      requires 0 < |table| < |emit| && TablesCorrect(table, back, |table|)
      requires |row| == |pointers| == n && |table[|table| - 1]| == n
      requires forall s: nat :: s < n ==> CellCorrect(table[|table| - 1], |table|, s, row[s], pointers[s])
      ensures TablesCorrect(table + [row], back + [pointers], |table| + 1)
    {
      forall u: nat | u <= |table| ensures RowCorrect(table + [row], back + [pointers], u) {
        assert u < |table| ==> RowCorrect(table, back, u);
      }
    }

    lemma BestFillsCell(prev: seq<real>, t: nat, s: nat, prevScores: seq<real>)
      requires Valid() && |prev| == |prevScores| == n && t < |emit| && s < n
      requires forall i :: 0 <= i < n ==> prevScores[i] == prev[i] + trans[i][s]
      ensures var b := Argmax(prevScores); CellCorrect(prev, t, s, prevScores[b] + emit[t][s], b)
    {
    }

    /** The inner loop: each cell takes the first best of the previous scores, plus the emission. */
    method FillRow(viterbiTable: array2<real>, backpointer: array2<nat>, t: nat,
        ghost table: seq<seq<real>>, ghost back: seq<seq<nat>>) returns (ghost row: seq<real>, ghost pointers: seq<nat>)
      requires Valid() && 0 < t < |emit| && |table| == |back| == t
      requires Agrees(viterbiTable, table, t) && Agrees(backpointer, back, t)
      modifies viterbiTable, backpointer
      ensures |row| == |pointers| == n
      ensures Agrees(viterbiTable, table + [row], t + 1) && Agrees(backpointer, back + [pointers], t + 1)
      ensures forall s: nat :: s < n ==> CellCorrect(table[t - 1], t, s, row[s], pointers[s])
    {
      hide CellCorrect, Argmax;
      row, pointers := [], [];
      ghost var prev := table[t - 1];
      for s := 0 to n
        invariant |row| == |pointers| == s
        invariant forall k: nat :: k < s ==> CellCorrect(prev, t, k, row[k], pointers[k])
        invariant forall k :: 0 <= k < s ==> viterbiTable[t, k] == row[k] && backpointer[t, k] == pointers[k]
        invariant Agrees(viterbiTable, table, t) && Agrees(backpointer, back, t)
      {
        var prevScores := seq(n, i requires 0 <= i < n && Valid() reads viterbiTable =>
                                   viterbiTable[t - 1, i] + trans[i][s]);
        var bestPrev := Argmax(prevScores);
        assert forall i :: 0 <= i < n ==> prevScores[i] == prev[i] + trans[i][s];
        BestFillsCell(prev, t, s, prevScores);
        viterbiTable[t, s] := prevScores[bestPrev] + emit[t][s];
        backpointer[t, s] := bestPrev;
        row, pointers := row + [prevScores[bestPrev] + emit[t][s]], pointers + [bestPrev];
      }
    }
  }

  /** Reading p[0..t] and q[0..t] from the back, they agree or p is smaller where they first differ. */
  ghost predicate RevLexLeqUpTo(p: seq<nat>, q: seq<nat>, t: nat)
    requires t < |p| && t < |q|
  {
    p[t] < q[t] || (p[t] == q[t] && (t == 0 || RevLexLeqUpTo(p, q, t - 1)))
  }

  /** The reverse-lexicographic order on state sequences of one length. */
  ghost predicate RevLexLeq(p: seq<nat>, q: seq<nat>) {
    |p| == |q| && (p == [] || RevLexLeqUpTo(p, q, |p| - 1))
  }

  lemma {:induction false} RevLexAntisymmetric(p: seq<nat>, q: seq<nat>, t: nat)
    requires t < |p| == |q| && RevLexLeqUpTo(p, q, t) && RevLexLeqUpTo(q, p, t)
    ensures p[..t + 1] == q[..t + 1]
  {
    if t == 0 {
    } else {
      RevLexAntisymmetric(p, q, t - 1);
    }
  }

  // ---------- from log-scores to probabilities ----------

  predicate Below(x: real, y: real) {
    x < y
  }

  /** What a logarithm does to products and to order, on positive numbers. */
  ghost predicate IsLogarithm(log: real -> real) {
    && (forall x, y :: x > 0.0 && y > 0.0 ==> log(Times(x, y)) == log(x) + log(y))
    && (forall x, y :: x > 0.0 && Below(x, y) ==> log(x) < log(y))
  }

  lemma LogOfProduct(log: real -> real, x: real, y: real)
    requires IsLogarithm(log) && x > 0.0 && y > 0.0
    ensures Times(x, y) > 0.0 && log(Times(x, y)) == log(x) + log(y)
  {
  }

  lemma LogOrder(log: real -> real, x: real, y: real)
    requires IsLogarithm(log) && x > 0.0 && y > 0.0
    ensures log(y) <= log(x) <==> y <= x
  {
    assert Below(x, y) ==> log(x) < log(y);
    assert Below(y, x) ==> log(y) < log(x);
  }

  // ---------- the model object ----------

  type Observation = seq<real>

  /** The state sequences that fitting uses: nonempty ones as long as their observations. */
  function Usable(observations: seq<seq<Observation>>, states: seq<seq<int>>, k: nat): (r: seq<seq<int>>)
    requires k <= |observations| && k <= |states|
    ensures forall s :: s in r ==> s != []
  {
    if k == 0 then []
    else
      var before := Usable(observations, states, k - 1);
      if states[k - 1] == [] || |states[k - 1]| != |observations[k - 1]| then before
      else before + [states[k - 1]]
  }

  function Paired(observations: seq<seq<Observation>>, states: seq<seq<int>>): seq<seq<int>> {
    Usable(observations, states, if |observations| < |states| then |observations| else |states|)
  }

  /** How many of the sequences start in state i. */
  function Starts(seqs: seq<seq<int>>, i: int): nat {
    if seqs == [] then 0
    else Starts(seqs[..|seqs| - 1], i) +
         if seqs[|seqs| - 1] != [] && seqs[|seqs| - 1][0] == i then 1 else 0
  }

  function StartRow(seqs: seq<seq<int>>, n: nat): (row: seq<real>)
    ensures |row| == n
  {
    seq(n, i => Starts(seqs, i) as real)
  }

  function StartTotal(seqs: seq<seq<int>>, n: nat, alpha: real): real {
    Sum(StartRow(seqs, n)) + Times(n as real, alpha)
  }

  /** Positive smoothing always leaves divisors. */
  lemma TotalsPositive(seqs: seq<seq<int>>, n: nat, alpha: real)
    requires n > 0 && alpha > 0.0
    ensures StartTotal(seqs, n, alpha) > 0.0
    ensures forall i :: 0 <= i < n ==> RowTotal(seqs, n, i, alpha) > 0.0
  {
    hide RowTotal;
    SumNonNegative(StartRow(seqs, n));
    TimesPositive(n as real, alpha);
    AllTotalsPositive(seqs, n, alpha);
  }

  lemma {:induction false} PairsInPrefix(a: seq<seq<int>>, b: seq<seq<int>>, k: nat, i: int, j: int)
    requires k <= |a|
    ensures PairsIn(a + b, k, i, j) == PairsIn(a, k, i, j)
  {
    if k == 0 {
    } else {
      PairsInPrefix(a, b, k - 1, i, j);
    }
  }

  lemma NothingUsable(observations: seq<seq<Observation>>, states: seq<seq<int>>)
    ensures Usable(observations, states, 0) == []
    ensures forall i :: Starts([], i) == 0
    ensures forall i, j :: PairsIn([], 0, i, j) == 0
  {
  }

  lemma UsableStep(observations: seq<seq<Observation>>, states: seq<seq<int>>, k: nat)
    requires k < |observations| && k < |states|
    ensures Usable(observations, states, k + 1) ==
            if states[k] == [] || |states[k]| != |observations[k]| then Usable(observations, states, k)
            else Usable(observations, states, k) + [states[k]]
  {
  }

  lemma CountsPush(seqs: seq<seq<int>>, s: seq<int>)
    ensures forall i :: Starts(seqs + [s], i) == Starts(seqs, i) + if s != [] && s[0] == i then 1 else 0
    ensures forall i, j :: PairsIn(seqs + [s], |seqs + [s]|, i, j) == PairsIn(seqs, |seqs|, i, j) + Pairs(s, i, j)
  {
    hide Pairs;
    assert (seqs + [s])[..|seqs|] == seqs;
    forall i, j ensures PairsIn(seqs + [s], |seqs + [s]|, i, j) == PairsIn(seqs, |seqs|, i, j) + Pairs(s, i, j) {
      PairsInPrefix(seqs, [s], |seqs|, i, j);
    }
  }

  // ---------- the counts are numbers of positions ----------

  /** Pair k is used for fitting. */
  predicate Used(observations: seq<seq<Observation>>, states: seq<seq<int>>, k: int) {
    0 <= k < |observations| && k < |states| && |states[k]| == |observations[k]| > 0
  }

  /** The used pairs whose states begin with i. */
  ghost function UsedStarts(observations: seq<seq<Observation>>, states: seq<seq<int>>, i: int): set<int> {
    set k | 0 <= k < |states| && Used(observations, states, k) && states[k][0] == i
  }

  /** Where the states of the used pairs step from i to j. */
  ghost function UsedSteps(observations: seq<seq<Observation>>, states: seq<seq<int>>,
      i: int, j: int): set<(int, int)> {
    set k, t | 0 <= k < |states| && 0 <= t < |states[k]| - 1 && Used(observations, states, k)
            && states[k][t] == i && states[k][t + 1] == j :: (k, t)
  }

  /** The same for the first m pairs. */
  ghost function StartsAmong(observations: seq<seq<Observation>>, states: seq<seq<int>>, m: nat, i: int): set<int>
    requires m <= |states|
  {
    set k | 0 <= k < m && Used(observations, states, k) && states[k][0] == i
  }

  lemma StartsStep(observations: seq<seq<Observation>>, states: seq<seq<int>>, k: nat, i: int)
    requires k < |observations| && k < |states|
    ensures |StartsAmong(observations, states, k + 1, i)| == |StartsAmong(observations, states, k, i)| +
            if Used(observations, states, k) && states[k][0] == i then 1 else 0
  {
    var last: set<int> := if Used(observations, states, k) && states[k][0] == i then {k} else {};
    assert StartsAmong(observations, states, k + 1, i) == StartsAmong(observations, states, k, i) + last;
  }

  lemma {:induction false} StartsCount(observations: seq<seq<Observation>>, states: seq<seq<int>>, m: nat, i: int)
    requires m <= |observations| && m <= |states|
    ensures Starts(Usable(observations, states, m), i) == |StartsAmong(observations, states, m, i)|
  {
    if m == 0 {
      assert StartsAmong(observations, states, 0, i) == {};
    } else {
      hide StartsAmong, Starts, Usable;
      StartsCount(observations, states, m - 1, i);
      StartsStep(observations, states, m - 1, i);
      UsableStep(observations, states, m - 1);
      CountsPush(Usable(observations, states, m - 1), states[m - 1]);
    }
  }

  /** The states, with those of unused pairs left empty. */
  function Blanked(observations: seq<seq<Observation>>, states: seq<seq<int>>): (r: seq<seq<int>>)
    ensures |r| == |states|
    ensures forall k :: 0 <= k < |r| ==> r[k] == if Used(observations, states, k) then states[k] else []
  {
    seq(|states|, k requires 0 <= k < |states| => if Used(observations, states, k) then states[k] else [])
  }

  lemma {:induction false} BlankedPairs(observations: seq<seq<Observation>>, states: seq<seq<int>>,
      m: nat, i: int, j: int)
    requires m <= |states|
    ensures PairsIn(Blanked(observations, states), m, i, j) ==
            var u := Usable(observations, states, if m <= |observations| then m else |observations|);
            PairsIn(u, |u|, i, j)
  {
    hide Pairs;
    if m == 0 {
    } else {
      BlankedPairs(observations, states, m - 1, i, j);
      NoPairs(i, j);
      var blanked := Blanked(observations, states);
      assert PairsIn(blanked, m, i, j) == PairsIn(blanked, m - 1, i, j) + Pairs(blanked[m - 1], i, j);
      if m <= |observations| {
        BlankedStep(observations, states, m - 1, i, j);
      }
    }
  }

  lemma BlankedStep(observations: seq<seq<Observation>>, states: seq<seq<int>>, k: nat, i: int, j: int)
    requires k < |observations| && k < |states|
    ensures var before, after := Usable(observations, states, k), Usable(observations, states, k + 1);
      PairsIn(after, |after|, i, j) ==
      PairsIn(before, |before|, i, j) + if Used(observations, states, k) then Pairs(states[k], i, j) else 0
  {
    hide Pairs, PairsIn, Usable;
    UsableStep(observations, states, k);
    CountsPush(Usable(observations, states, k), states[k]);
  }

  lemma NoPairs(i: int, j: int)
    ensures Pairs([], i, j) == 0
  {
  }

  /** The counts that fitting works with are the numbers of used pairs that begin in a state, and of positions
      at which they step from one state to another. */
  lemma CountsArePositions(observations: seq<seq<Observation>>, states: seq<seq<int>>, i: int, j: int)
    ensures var seqs := Paired(observations, states);
      && Starts(seqs, i) == |UsedStarts(observations, states, i)|
      && PairsIn(seqs, |seqs|, i, j) == |UsedSteps(observations, states, i, j)|
  {
    hide Starts, PairsIn, Usable;
    var m := if |observations| < |states| then |observations| else |states|;
    var blanked := Blanked(observations, states);
    StartsCount(observations, states, m, i);
    assert UsedStarts(observations, states, i) == StartsAmong(observations, states, m, i);
    BlankedPairs(observations, states, |states|, i, j);
    PairsAreSteps(blanked, |blanked|, i, j);
    assert Steps(blanked, |blanked|, i, j) == UsedSteps(observations, states, i, j);
  }

  function LogVector(v: seq<real>, log: real -> real): (r: seq<real>)
    ensures |r| == |v| && forall i :: 0 <= i < |v| ==> r[i] == log(Floored(v[i]))
  {
    seq(|v|, i requires 0 <= i < |v| => log(Floored(v[i])))
  }

  function LogMatrix(m: seq<seq<real>>, log: real -> real): (r: seq<seq<real>>)
    ensures |r| == |m| && forall i :: 0 <= i < |m| ==> r[i] == LogVector(m[i], log)
  {
    seq(|m|, i requires 0 <= i < |m| => LogVector(m[i], log))
  }

  /** v with every entry below 1e-12 raised to it, said entry by entry. */
  ghost predicate Clipped(v: seq<real>, r: seq<real>) {
    |r| == |v| && forall i :: 0 <= i < |v| ==>
      && (v[i] >= 0.000000000001 ==> r[i] == v[i])
      && (v[i] < 0.000000000001 ==> r[i] == 0.000000000001)
  }

  /** Every probability is at least 1e-12. */
  ghost predicate Unclipped(v: seq<real>) {
    forall i :: 0 <= i < |v| ==> v[i] >= 0.000000000001
  }

  function EmissionTable(observations: seq<Observation>, n: nat, logPdf: (Observation,
        nat) -> real): (r: seq<seq<real>>)
    ensures |r| == |observations|
    ensures forall t :: 0 <= t < |r| ==> |r[t]| == n && forall s :: 0 <= s < n ==> r[t][s] == logPdf(observations[t], s)
  {
    seq(|observations|, t requires 0 <= t < |observations| =>
      seq(n, s requires 0 <= s < n => logPdf(observations[t], s)))
  }

  class Forecaster {
    const nStates: nat
    var startProb: seq<real>
    var transitionMatrix: seq<seq<real>>
    var isFitted: bool

    predicate Valid()
      reads this
    {
      && nStates > 0 && |startProb| == nStates
      && |transitionMatrix| == nStates && Square(transitionMatrix)
    }

    constructor (n: nat)
      requires n > 0
      ensures Valid() && nStates == n && !isFitted
      ensures Distribution(startProb) && Stochastic(transitionMatrix)
    {
      nStates := n;
      var row := seq(n, _ => 1.0 / n as real);
      UniformDistribution(row);
      startProb := row;
      transitionMatrix := seq(n, _ => row);
      isFitted := false;
    }

    // ---------- fitting ----------

    /** Smoothed start frequencies and smoothed transition frequencies of the usable sequences.
        As for the Markov chain, a zero divisor (NaN in numpy) is reported as undefined. */
    method Fit(observations: seq<seq<Observation>>, states: seq<seq<int>>, alpha: real) returns (defined: bool)
      requires Valid()
      modifies this
      ensures Valid()
      ensures var seqs, n := Paired(observations, states), nStates;
        defined <==> (observations == [] || states == [] ||
          (StartTotal(seqs, n, alpha) != 0.0 &&
           forall i :: 0 <= i < n ==> RowTotal(seqs, n, i, alpha) != 0.0))
      ensures var seqs, n := Paired(observations, states), nStates;
        defined && observations != [] && states != [] ==>
          && isFitted
          && startProb == Normalised(StartRow(seqs, n), alpha, StartTotal(seqs, n, alpha))
          && IsFit(transitionMatrix, seqs, n, alpha)
      ensures !defined || observations == [] || states == [] ==>
        startProb == old(startProb) && transitionMatrix == old(transitionMatrix) && isFitted == old(isFitted)
      ensures alpha > 0.0 ==> defined
    {
      if alpha > 0.0 {
        TotalsPositive(Paired(observations, states), nStates, alpha);
      }
      if states == [] || observations == [] {
        return true;
      }
      ghost var seqs := Paired(observations, states);
      var startCounts, counts := Count(observations, states);
      var startRow := startCounts[..];
      assert startRow == StartRow(seqs, nStates);
      var startTotal := Sum(startRow) + Times(nStates as real, alpha);
      defined := startTotal != 0.0;
      var rows: seq<seq<real>> := [];
      for i := 0 to nStates
        invariant Valid() && startTotal == StartTotal(seqs, nStates, alpha)
        invariant defined <==> (startTotal != 0.0 &&
          forall k :: 0 <= k < i ==> RowTotal(seqs, nStates, k, alpha) != 0.0)
        invariant defined ==> |rows| == i
        invariant defined ==> forall k :: 0 <= k < i ==>
          && RowTotal(seqs, nStates, k, alpha) != 0.0
          && rows[k] == Normalised(CountRow(seqs, nStates, k), alpha, RowTotal(seqs, nStates, k, alpha))
        invariant startProb == old(startProb) && transitionMatrix == old(transitionMatrix) && isFitted == old(isFitted)
      {
        var row := seq(nStates, j requires 0 <= j < nStates reads counts => counts[i, j]);
        assert row == CountRow(seqs, nStates, i);
        var total := Sum(row) + Times(nStates as real, alpha);
        assert total == RowTotal(seqs, nStates, i, alpha);
        if total == 0.0 {
          defined := false;
        } else if defined {
          rows := rows + [Normalised(row, alpha, total)];
        }
      }
      if defined {
        startProb := Normalised(startRow, alpha, startTotal);
        transitionMatrix, isFitted := rows, true;
      }
    }

    method Count(observations: seq<seq<Observation>>, states: seq<seq<int>>)
      returns (startCounts: array<real>, counts: array2<real>)
      requires Valid()
      ensures fresh(startCounts) && startCounts.Length == nStates
      ensures fresh(counts) && counts.Length0 == nStates && counts.Length1 == nStates
      ensures forall i :: 0 <= i < nStates ==> startCounts[i] == Starts(Paired(observations, states), i) as real
      ensures forall i, j :: 0 <= i < nStates && 0 <= j < nStates ==>
        counts[i, j] == PairsIn(Paired(observations, states), |Paired(observations, states)|, i, j) as real
    {
      hide Usable, PairsIn, Pairs, Starts;
      startCounts := new real[nStates](i => 0.0);
      counts := new real[nStates, nStates]((i, j) => 0.0);
      var m := if |observations| < |states| then |observations| else |states|;
      NothingUsable(observations, states);
      for k := 0 to m
        invariant forall i :: 0 <= i < nStates ==> startCounts[i] == Starts(Usable(observations, states, k), i) as real
        invariant forall i, j :: 0 <= i < nStates && 0 <= j < nStates ==>
          counts[i, j] == PairsIn(Usable(observations, states, k), |Usable(observations, states, k)|, i, j) as real
      {
        var s := states[k];
        UsableStep(observations, states, k);
        if s != [] && |s| == |observations[k]| {
          CountsPush(Usable(observations, states, k), s);
          if 0 <= s[0] < nStates {
            startCounts[s[0]] := startCounts[s[0]] + 1.0;
          }
          AddPairs(counts, s);
        }
      }
    }

    /** A defined fit yields distributions. With positive smoothing, fitting is always defined, and they are
        strictly positive. */
    lemma FitWithSmoothing(seqs: seq<seq<int>>, alpha: real)
      requires Valid() && alpha >= 0.0
      requires alpha == 0.0 ==> StartTotal(seqs, nStates, alpha) != 0.0
      requires StartTotal(seqs, nStates, alpha) != 0.0 ==>
        startProb == Normalised(StartRow(seqs, nStates), alpha, StartTotal(seqs, nStates, alpha))
      requires IsFit(transitionMatrix, seqs, nStates, alpha)
      ensures Distribution(startProb) && Stochastic(transitionMatrix)
      ensures alpha > 0.0 ==> forall i :: 0 <= i < nStates ==> startProb[i] > 0.0
      ensures alpha > 0.0 ==> forall i, j :: 0 <= i < nStates && 0 <= j < nStates ==> transitionMatrix[i][j] > 0.0
    {
      var row := StartRow(seqs, nStates);
      if alpha > 0.0 {
        TotalsPositive(seqs, nStates, alpha);
        NormalisedPositive(row, alpha, StartTotal(seqs, nStates, alpha));
      }
      NormalisedNonNegative(row, alpha, StartTotal(seqs, nStates, alpha));
      NormalisedSumsToOne(row, alpha, StartTotal(seqs, nStates, alpha));
      FitIsStochastic(transitionMatrix, seqs, nStates, alpha);
    }

    /** What a fit means for the data: start probabilities and the rows of the transition matrix sum to one and
        are in the ratio of the smoothed numbers of starts and steps that the used pairs show. */
    lemma FitInProportionToData(observations: seq<seq<Observation>>, states: seq<seq<int>>, alpha: real,
        i: nat, j: nat, l: nat)
      requires Valid() && i < nStates && j < nStates && l < nStates
      requires StartTotal(Paired(observations, states), nStates, alpha) != 0.0
      requires startProb == Normalised(StartRow(Paired(observations, states), nStates), alpha,
                                       StartTotal(Paired(observations, states), nStates, alpha))
      requires IsFit(transitionMatrix, Paired(observations, states), nStates, alpha)
      ensures Sum(startProb) == 1.0 == Sum(transitionMatrix[i])
      ensures Times(startProb[j], |UsedStarts(observations, states, l)| as real + alpha) ==
              Times(startProb[l], |UsedStarts(observations, states, j)| as real + alpha)
      ensures Times(transitionMatrix[i][j], |UsedSteps(observations, states, i, l)| as real + alpha) ==
              Times(transitionMatrix[i][l], |UsedSteps(observations, states, i, j)| as real + alpha)
    {
      hide Times, Starts, PairsIn, Paired, Steps;
      var seqs := Paired(observations, states);
      var row, total := StartRow(seqs, nStates), StartTotal(seqs, nStates, alpha);
      CountsArePositions(observations, states, i, j);
      CountsArePositions(observations, states, i, l);
      CountsArePositions(observations, states, j, j);
      CountsArePositions(observations, states, l, l);
      PairsAreSteps(seqs, |seqs|, i, j);
      PairsAreSteps(seqs, |seqs|, i, l);
      NormalisedSumsToOne(row, alpha, total);
      QuotientsInProportion(row[j] + alpha, row[l] + alpha, total);
      FitInProportion(transitionMatrix, seqs, nStates, alpha, i, j, l);
    }

    // ---------- decoding ----------

    /** The log-domain problem that viterbi solves for these observations. */
    ghost function ProblemFor(observations: seq<Observation>, log: real -> real, logPdf: (Observation,
          nat) -> real): (m: Problem)
      requires Valid()
      reads this
      ensures m.Valid() && m.n == nStates && |m.emit| == |observations|
    {
      Problem(nStates, LogVector(startProb, log), LogMatrix(transitionMatrix, log),
              EmissionTable(observations, nStates, logPdf))
    }

    /** Viterbi decoding: a globally optimal state sequence, ties going to the
        reverse-lexicographically least. */
    method Viterbi(observations: seq<Observation>, log: real -> real, logPdf: (Observation, nat) -> real)
      returns (path: seq<nat>)
      requires Valid()
      ensures |path| == |observations|
      ensures observations != [] ==> ProblemFor(observations, log, logPdf).Best(path)
    {
      if observations == [] {
        return [];
      }
      var m := Problem(nStates, LogVector(startProb, log), LogMatrix(transitionMatrix, log),
                       EmissionTable(observations, nStates, logPdf));
      path := m.Decode();
    }

    /** prob holds the probabilities that decoding is about: the parameters, raised to 1e-12 where they are
        below it, and the density of every observation in every state. */
    ghost predicate Probabilities(prob: Problem, observations: seq<Observation>, density: (Observation, nat) -> real)
      reads this
    {
      && prob.Valid() && prob.n == nStates && |prob.emit| == |observations|
      && Clipped(startProb, prob.start)
      && |prob.trans| == |transitionMatrix|
      && (forall i :: 0 <= i < |prob.trans| ==> Clipped(transitionMatrix[i], prob.trans[i]))
      && forall t, s :: 0 <= t < |observations| && 0 <= s < nStates ==> prob.emit[t][s] == density(observations[t], s)
    }

    lemma LogTables(prob: Problem, observations: seq<Observation>, log: real -> real,
        logPdf: (Observation, nat) -> real, density: (Observation, nat) -> real)
      requires Valid() && Probabilities(prob, observations, density)
      requires forall o, s :: density(o, s) > 0.0 && logPdf(o, s) == log(density(o, s))
      ensures ProblemFor(observations, log, logPdf).LogOf(prob, log)
    {
      var m := ProblemFor(observations, log, logPdf);
      forall i, s | 0 <= i < nStates && 0 <= s < nStates
        ensures prob.trans[i][s] > 0.0 && m.trans[i][s] == log(prob.trans[i][s])
      {
        assert Clipped(transitionMatrix[i], prob.trans[i]);
      }
      forall t, s | 0 <= t < |observations| && 0 <= s < nStates
        ensures prob.emit[t][s] > 0.0 && m.emit[t][s] == log(prob.emit[t][s])
      {
        assert prob.emit[t][s] == density(observations[t], s);
      }
    }

    /** With a true logarithm, comparing the scores that decoding compares is comparing joint probabilities of
        states and observations. */
    lemma BestScoreIsMostProbable(prob: Problem, observations: seq<Observation>, log: real -> real,
        logPdf: (Observation, nat) -> real, density: (Observation, nat) -> real, p: seq<nat>, q: seq<nat>)
      requires Valid() && IsLogarithm(log) && Probabilities(prob, observations, density)
      requires forall o, s :: density(o, s) > 0.0 && logPdf(o, s) == log(density(o, s))
      requires prob.IsPath(p) && prob.IsPath(q)
      ensures var m := ProblemFor(observations, log, logPdf);
        m.IsPath(p) && m.IsPath(q) && (m.Score(q) <= m.Score(p) <==> prob.Likelihood(q) <= prob.Likelihood(p))
    {
      LogTables(prob, observations, log, logPdf, density);
      ProblemFor(observations, log, logPdf).ScoresOrderAsLikelihoods(prob, log, p, q);
    }

    /** The decoded path is a most probable state sequence, and the reverse-lexicographically least of those. */
    lemma DecodedIsMostProbable(prob: Problem, observations: seq<Observation>, log: real -> real,
        logPdf: (Observation, nat) -> real, density: (Observation, nat) -> real, p: seq<nat>, q: seq<nat>)
      requires Valid() && IsLogarithm(log) && Probabilities(prob, observations, density)
      requires forall o, s :: density(o, s) > 0.0 && logPdf(o, s) == log(density(o, s))
      requires ProblemFor(observations, log, logPdf).Best(p) && prob.IsPath(q)
      ensures prob.IsPath(p) && prob.Likelihood(q) <= prob.Likelihood(p)
      ensures prob.Likelihood(q) == prob.Likelihood(p) ==> RevLexLeq(p, q)
    {
      BestScoreIsMostProbable(prob, observations, log, logPdf, density, p, q);
      BestScoreIsMostProbable(prob, observations, log, logPdf, density, q, p);
    }

    /** Where no parameter is below the floor, that is the probability under the parameters as they are. */
    lemma DecodedIsMostProbableUnclipped(observations: seq<Observation>, log: real -> real,
        logPdf: (Observation, nat) -> real, density: (Observation, nat) -> real,
        emit: seq<seq<real>>, p: seq<nat>, q: seq<nat>)
      requires Valid() && IsLogarithm(log)
      requires forall o, s :: density(o, s) > 0.0 && logPdf(o, s) == log(density(o, s))
      requires Unclipped(startProb) && forall i :: 0 <= i < nStates ==> Unclipped(transitionMatrix[i])
      requires |emit| == |observations| && forall t :: 0 <= t < |emit| ==> |emit[t]| == nStates
      requires forall t, s :: 0 <= t < |emit| && 0 <= s < nStates ==> emit[t][s] == density(observations[t], s)
      requires ProblemFor(observations, log, logPdf).Best(p)
      ensures var prob := Problem(nStates, startProb, transitionMatrix, emit);
        && prob.Valid() && prob.IsPath(p)
        && (prob.IsPath(q) ==> prob.Likelihood(q) <= prob.Likelihood(p))
    {
      var prob := Problem(nStates, startProb, transitionMatrix, emit);
      forall i | 0 <= i < nStates ensures Clipped(transitionMatrix[i], prob.trans[i]) {
        assert Unclipped(transitionMatrix[i]);
      }
      if prob.IsPath(q) {
        DecodedIsMostProbable(prob, observations, log, logPdf, density, p, q);
      }
    }

    // ---------- forecasting ----------

    /** The current state for these observations: where the decoded path ends. */
    ghost predicate Current(observations: seq<Observation>, log: real -> real, logPdf: (Observation,
          nat) -> real, state: nat)
      requires Valid()
      reads this
    {
      if observations == [] then state == NORMAL
      else exists p :: p != [] && ProblemFor(observations, log, logPdf).Best(p) && p[|p| - 1] == state
    }

    method Predict(observations: seq<Observation>, log: real -> real, logPdf: (Observation, nat) -> real)
      returns (state: nat)
      requires Valid()
      ensures Current(observations, log, logPdf, state) && state < nStates
    {
      var path := Viterbi(observations, log, logPdf);
      if path == [] {
        return NORMAL;
      }
      return path[|path| - 1];
    }

    /** The distributions reported for the horizon steps: the powers of the transition matrix
        applied to the decoded state. */
    method ForecastProba(observations: seq<Observation>, steps: int, log: real -> real, logPdf: (Observation,
          nat) -> real)
      returns (distributions: seq<seq<real>>, ghost current: nat)
      requires Valid()
      ensures Current(observations, log, logPdf, current) && current < nStates
      ensures |distributions| == if steps < 0 then 0 else steps
      ensures forall h :: 0 <= h < |distributions| ==>
        distributions[h] == Power(OneHot(nStates, current), transitionMatrix, h + 1)
      ensures Stochastic(transitionMatrix) ==> forall h :: 0 <= h < |distributions| ==> Distribution(distributions[h])
    {
      hide Current, Power, VecMat, Distribution, Argmax;
      var state := Predict(observations, log, logPdf);
      current := state;
      distributions := [];
      var stateVec := OneHot(nStates, state);
      PowerZero(stateVec, transitionMatrix);
      var h := 0;
      while h < steps
        invariant h == |distributions| && (h <= steps || h == 0)
        invariant stateVec == Power(OneHot(nStates, state), transitionMatrix, h)
        invariant forall k :: 0 <= k < h ==>
          distributions[k] == Power(OneHot(nStates, state), transitionMatrix, k + 1)
      {
        PowerStep(OneHot(nStates, state), transitionMatrix, h);
        stateVec := VecMat(stateVec, transitionMatrix);
        distributions := distributions + [stateVec];
        h := h + 1;
      }
      if Stochastic(transitionMatrix) {
        OneHotDistribution(nStates, state);
        forall k | 0 <= k < |distributions| ensures Distribution(distributions[k]) {
          PowerDistribution(OneHot(nStates, state), transitionMatrix, k + 1);
        }
      }
    }

    method Forecast(observations: seq<Observation>, steps: int, log: real -> real, logPdf: (Observation, nat) -> real)
      returns (forecasts: seq<nat>, ghost current: nat)
      requires Valid()
      ensures Current(observations, log, logPdf, current) && current < nStates
      ensures |forecasts| == if steps < 0 then 0 else steps
      ensures forall h :: 0 <= h < |forecasts| ==>
        forecasts[h] == Argmax(Power(OneHot(nStates, current), transitionMatrix, h + 1))
    {
      hide Current, Power, VecMat, Distribution, Argmax;
      var state := Predict(observations, log, logPdf);
      current := state;
      forecasts := [];
      var stateVec := OneHot(nStates, state);
      PowerZero(stateVec, transitionMatrix);
      var h := 0;
      while h < steps
        invariant h == |forecasts| && (h <= steps || h == 0)
        invariant stateVec == Power(OneHot(nStates, state), transitionMatrix, h)
        invariant forall k :: 0 <= k < h ==>
          forecasts[k] == Argmax(Power(OneHot(nStates, state), transitionMatrix, k + 1))
      {
        PowerStep(OneHot(nStates, state), transitionMatrix, h);
        stateVec := VecMat(stateVec, transitionMatrix);
        forecasts := forecasts + [Argmax(stateVec)];
        h := h + 1;
      }
    }
  }
}
