/** The vector and matrix operations that the forecasting models take from NumPy:
    first-index argmax, sums, row-vector times matrix, one-hot vectors. */
module LinearAlgebra {
  import opened Common

  /** numpy.argmax: the first index that holds the maximum. */
  function Argmax(v: seq<real>): (k: nat)
    requires |v| > 0
    ensures k < |v|
    ensures forall i :: 0 <= i < |v| ==> v[i] <= v[k]
    ensures forall i :: 0 <= i < k ==> v[i] < v[k]
  {
    if |v| == 1 then 0
    else
      var k := Argmax(v[..|v| - 1]);
      assert forall i :: 0 <= i < |v| - 1 ==> v[i] == v[..|v| - 1][i];
      if v[|v| - 1] > v[k] then |v| - 1 else k
  }

  function Sum(v: seq<real>): real {
    if v == [] then 0.0 else v[0] + Sum(v[1..])
  }

  function Scaled(x: real, v: seq<real>): (r: seq<real>)
    ensures |r| == |v| && forall i :: 0 <= i < |v| ==> r[i] == Times(x, v[i])
  {
    seq(|v|, i requires 0 <= i < |v| => Times(x, v[i]))
  }

  predicate Square(m: seq<seq<real>>) {
    forall i :: 0 <= i < |m| ==> |m[i]| == |m|
  }

  /** A probability vector. */
  ghost predicate Distribution(v: seq<real>) {
    Sum(v) == 1.0 && forall i :: 0 <= i < |v| ==> v[i] >= 0.0
  }

  ghost predicate Stochastic(m: seq<seq<real>>) {
    Square(m) && forall i :: 0 <= i < |m| ==> Distribution(m[i])
  }

  function OneHot(n: nat, k: nat): (v: seq<real>)
    ensures |v| == n
  {
    seq(n, i => if i == k then 1.0 else 0.0)
  }

  /** The products v[i] * m[i][j], one for each i. */
  function Terms(v: seq<real>, m: seq<seq<real>>, j: nat): (r: seq<real>)
    requires Square(m) && |v| == |m| && j < |m|
    ensures |r| == |v| && forall i :: 0 <= i < |v| ==> r[i] == Times(v[i], m[i][j])
  {
    seq(|v|, i requires 0 <= i < |v| => Times(v[i], m[i][j]))
  }

  /** numpy's `v @ m` for a row vector. */
  function VecMat(v: seq<real>, m: seq<seq<real>>): (r: seq<real>)
    requires Square(m) && |v| == |m|
    ensures |r| == |v|
  {
    seq(|v|, j requires 0 <= j < |v| => Sum(Terms(v, m, j)))
  }

  /** The vector after k applications of `v @ m`. */
  function Power(v: seq<real>, m: seq<seq<real>>, k: nat): (r: seq<real>)
    requires Square(m) && |v| == |m|
    ensures |r| == |v|
  {
    if k == 0 then v else VecMat(Power(v, m, k - 1), m)
  }

  lemma PowerZero(v: seq<real>, m: seq<seq<real>>)
    requires Square(m) && |v| == |m|
    ensures Power(v, m, 0) == v
  {
  }

  lemma PowerStep(v: seq<real>, m: seq<seq<real>>, k: nat)
    requires Square(m) && |v| == |m|
    ensures Power(v, m, k + 1) == VecMat(Power(v, m, k), m)
  {
  }

  // ---------- sums ----------

  lemma {:induction false} SumAppend(a: seq<real>, b: seq<real>)
    ensures Sum(a + b) == Sum(a) + Sum(b)
  {
    if a == [] {
      assert a + b == b;
    } else {
      SumAppend(a[1..], b);
      assert (a + b)[1..] == a[1..] + b;
    }
  }

  lemma {:induction false} SumNonNegative(v: seq<real>)
    requires forall i :: 0 <= i < |v| ==> v[i] >= 0.0
    ensures Sum(v) >= 0.0
    ensures forall i :: 0 <= i < |v| ==> v[i] <= Sum(v)
  {
    if v == [] {
    } else {
      SumNonNegative(v[1..]);
      forall i | 0 <= i < |v| ensures v[i] <= Sum(v) {
        if i > 0 { assert v[i] == v[1..][i - 1]; }
      }
    }
  }

  lemma {:induction false} SumAdd(a: seq<real>, b: seq<real>, r: seq<real>)
    requires |a| == |b| == |r|
    requires forall i :: 0 <= i < |a| ==> r[i] == a[i] + b[i]
    ensures Sum(r) == Sum(a) + Sum(b)
  {
    if a == [] {
    } else {
      SumAdd(a[1..], b[1..], r[1..]);
    }
  }

  lemma {:induction false} SumScale(a: seq<real>, r: seq<real>, x: real)
    requires |a| == |r|
    requires forall i :: 0 <= i < |a| ==> r[i] == Times(x, a[i])
    ensures Sum(r) == Times(x, Sum(a))
  {
    hide Times;
    if a == [] {
      TimesDistributes(x, 0.0, 0.0);
    } else {
      SumScale(a[1..], r[1..], x);
      TimesDistributes(x, a[0], Sum(a[1..]));
    }
  }

  lemma {:induction false} SumZero(v: seq<real>)
    requires forall i :: 0 <= i < |v| ==> v[i] == 0.0
    ensures Sum(v) == 0.0
  {
    if v == [] {
    } else {
      SumZero(v[1..]);
    }
  }

  lemma {:induction false} SumConstant(v: seq<real>, c: real)
    requires forall i :: 0 <= i < |v| ==> v[i] == c
    ensures Sum(v) == Times(|v| as real, c)
  {
    if v != [] {
      SumConstant(v[1..], c);
      TimesSuccessor(|v| - 1, c);
    } else {
      assert Times(0.0, c) == 0.0;
    }
  }

  function Column(rows: seq<seq<real>>, j: nat): (c: seq<real>)
    requires forall i :: 0 <= i < |rows| ==> j < |rows[i]|
    ensures |c| == |rows|
  {
    seq(|rows|, i requires 0 <= i < |rows| => rows[i][j])
  }

  /** Summing a table by rows and then by columns gives the same total. */
  lemma {:induction false} SumExchange(rows: seq<seq<real>>, n: nat, rowSums: seq<real>, colSums: seq<real>)
    requires forall i :: 0 <= i < |rows| ==> |rows[i]| == n
    requires |rowSums| == |rows| && forall i :: 0 <= i < |rows| ==> rowSums[i] == Sum(rows[i])
    requires |colSums| == n
    requires forall j :: 0 <= j < n ==> colSums[j] == Sum(Column(rows, j))
    ensures Sum(rowSums) == Sum(colSums)
  {
    if rows == [] {
      SumZero(colSums);
    } else {
      var rest := rows[1..];
      var restCols := seq(n, j requires 0 <= j < n => Sum(Column(rest, j)));
      SumExchange(rest, n, rowSums[1..], restCols);
      forall j | 0 <= j < n
        ensures colSums[j] == rows[0][j] + restCols[j]
      {
        assert Column(rows, j)[1..] == Column(rest, j);
      }
      SumAdd(rows[0], restCols, colSums);
    }
  }

  // ---------- distributions ----------

  /** One step under a stochastic matrix keeps a distribution a distribution. */
  lemma VecMatDistribution(v: seq<real>, m: seq<seq<real>>)
    requires Stochastic(m) && |v| == |m| && Distribution(v)
    ensures Distribution(VecMat(v, m))
  {
    VecMatNonNegative(v, m);
    VecMatSum(v, m);
  }

  lemma VecMatNonNegative(v: seq<real>, m: seq<seq<real>>)
    requires Stochastic(m) && |v| == |m| && Distribution(v)
    ensures forall j :: 0 <= j < |v| ==> VecMat(v, m)[j] >= 0.0
  {
    hide Times;
    forall j | 0 <= j < |v| ensures VecMat(v, m)[j] >= 0.0 {
      var ts := Terms(v, m, j);
      forall i | 0 <= i < |ts| ensures ts[i] >= 0.0 {
        assert Distribution(m[i]);
        TimesNonNegative(v[i], m[i][j]);
      }
      SumNonNegative(ts);
    }
  }

  /** Row i of the table is row i of m, weighted by v[i]. */
  function WeightedRows(v: seq<real>, m: seq<seq<real>>): (rows: seq<seq<real>>)
    requires Square(m) && |v| == |m|
    ensures |rows| == |v| && forall i :: 0 <= i < |rows| ==> rows[i] == Scaled(v[i], m[i])
  {
    seq(|v|, i requires 0 <= i < |v| => Scaled(v[i], m[i]))
  }

  lemma WeightedColumn(v: seq<real>, m: seq<seq<real>>, j: nat)
    requires Square(m) && |v| == |m| && j < |v|
    ensures Column(WeightedRows(v, m), j) == Terms(v, m, j)
  {
    hide Times;
  }

  lemma VecMatSum(v: seq<real>, m: seq<seq<real>>)
    requires Stochastic(m) && |v| == |m|
    ensures Sum(VecMat(v, m)) == Sum(v)
  {
    hide Times;
    var rows := WeightedRows(v, m);
    forall i | 0 <= i < |v| ensures Sum(rows[i]) == v[i] {
      assert Distribution(m[i]);
      SumScale(m[i], rows[i], v[i]);
      TimesOne(v[i]);
    }
    forall j | 0 <= j < |v| ensures VecMat(v, m)[j] == Sum(Column(rows, j)) {
      WeightedColumn(v, m, j);
    }
    SumExchange(rows, |v|, v, VecMat(v, m));
  }

  lemma {:induction false} PowerDistribution(v: seq<real>, m: seq<seq<real>>, k: nat)
    requires Stochastic(m) && |v| == |m| && Distribution(v)
    ensures Distribution(Power(v, m, k))
  {
    if k == 0 {
    } else {
      PowerDistribution(v, m, k - 1);
      VecMatDistribution(Power(v, m, k - 1), m);
    }
  }

  lemma OneHotDistribution(n: nat, k: nat)
    requires k < n
    ensures Distribution(OneHot(n, k))
  {
    var v := OneHot(n, k);
    assert v == v[..k] + ([1.0] + v[k + 1..]);
    SumAppend(v[..k], [1.0] + v[k + 1..]);
    SumAppend([1.0], v[k + 1..]);
    SumZero(v[..k]);
    SumZero(v[k + 1..]);
  }

  // ---------- linearity of the forecast ----------

  /** The mixture sum_i w[i] * Power(e_i, m, k)[j]. */
  function Mixture(w: seq<real>, m: seq<seq<real>>, k: nat, j: nat): (r: seq<real>)
    requires Square(m) && |w| == |m| && j < |m|
    ensures |r| == |w| && forall i :: 0 <= i < |w| ==> r[i] == Times(w[i], Power(OneHot(|m|, i), m, k)[j])
  {
    seq(|w|, i requires 0 <= i < |w| => Times(w[i], Power(OneHot(|m|, i), m, k)[j]))
  }

  /** Entry (i, l) is w[i] * Power(e_i, m, k - 1)[l] * m[l][j]. */
  function MixtureTable(w: seq<real>, m: seq<seq<real>>, k: nat, j: nat): (rows: seq<seq<real>>)
    requires Square(m) && |w| == |m| && j < |m| && k > 0
    ensures |rows| == |m|
    ensures forall i :: 0 <= i < |rows| ==>
      |rows[i]| == |m| && rows[i] == Scaled(w[i], Terms(Power(OneHot(|m|, i), m, k - 1), m, j))
  {
    seq(|m|, i requires 0 <= i < |m| => Scaled(w[i], Terms(Power(OneHot(|m|, i), m, k - 1), m, j)))
  }

  lemma MixtureTableColumn(w: seq<real>, m: seq<seq<real>>, k: nat, j: nat, l: nat)
    requires Square(m) && |w| == |m| && j < |m| && k > 0 && l < |m|
    ensures forall i :: 0 <= i < |m| ==>
      Column(MixtureTable(w, m, k, j), l)[i] == Times(m[l][j], Mixture(w, m, k - 1, l)[i])
  {
    hide Times;
    forall i | 0 <= i < |m|
      ensures Column(MixtureTable(w, m, k, j), l)[i] == Times(m[l][j], Mixture(w, m, k - 1, l)[i])
    {
      TimesRearrange(w[i], Power(OneHot(|m|, i), m, k - 1)[l], m[l][j]);
    }
  }

  /** A k-step forecast from any vector is the mixture of the k-step forecasts from the states. */
  lemma {:induction false} PowerIsMixture(w: seq<real>, m: seq<seq<real>>, k: nat, j: nat)
    requires Square(m) && |w| == |m| && j < |m|
    ensures Power(w, m, k)[j] == Sum(Mixture(w, m, k, j))
  {
    hide Times, Sum, Mixture, MixtureTable, Terms, VecMat, Column;
    if k == 0 {
      MixtureOfNothing(w, m, j);
    } else {
      var mix, rows := Mixture(w, m, k, j), MixtureTable(w, m, k, j);
      var cols := Terms(Power(w, m, k - 1), m, j);
      MixtureRows(w, m, k, j);
      forall l | 0 <= l < |m| ensures cols[l] == Sum(Column(rows, l)) {
        PowerIsMixture(w, m, k - 1, l);
        MixtureTableColumn(w, m, k, j, l);
        SumScale(Mixture(w, m, k - 1, l), Column(rows, l), m[l][j]);
        TimesCommutes(m[l][j], Power(w, m, k - 1)[l]);
      }
      SumExchange(rows, |m|, mix, cols);
      VecMatAt(Power(w, m, k - 1), m, j);
    }
  }

  lemma VecMatAt(v: seq<real>, m: seq<seq<real>>, j: nat)
    requires Square(m) && |v| == |m| && j < |m|
    ensures VecMat(v, m)[j] == Sum(Terms(v, m, j))
  {
  }

  lemma MixtureRows(w: seq<real>, m: seq<seq<real>>, k: nat, j: nat)
    requires Square(m) && |w| == |m| && j < |m| && k > 0
    ensures forall i :: 0 <= i < |m| ==> Mixture(w, m, k, j)[i] == Sum(MixtureTable(w, m, k, j)[i])
  {
    hide Times, Sum, Terms, VecMat;
    forall i | 0 <= i < |m| ensures Mixture(w, m, k, j)[i] == Sum(MixtureTable(w, m, k, j)[i]) {
      var before := Power(OneHot(|m|, i), m, k - 1);
      SumScale(Terms(before, m, j), MixtureTable(w, m, k, j)[i], w[i]);
      VecMatAt(before, m, j);
    }
  }

  lemma MixtureOfNothing(w: seq<real>, m: seq<seq<real>>, j: nat)
    requires Square(m) && |w| == |m| && j < |m|
    ensures w[j] == Sum(Mixture(w, m, 0, j))
  {
    hide Times, Sum;
    var mix := Mixture(w, m, 0, j);
    forall i | 0 <= i < |m| ensures mix[i] == Times(w[j], OneHot(|m|, j)[i]) {
      TimesOne(w[i]);
      TimesDistributes(w[i], 0.0, 0.0);
      TimesDistributes(w[j], 0.0, 0.0);
    }
    SumScale(OneHot(|m|, j), mix, w[j]);
    OneHotDistribution(|m|, j);
    TimesOne(w[j]);
  }

  lemma {:induction false} PowerAdd(v: seq<real>, m: seq<seq<real>>, a: nat, b: nat)
    requires Square(m) && |v| == |m|
    ensures Power(v, m, a + b) == Power(Power(v, m, a), m, b)
  {
    if b == 0 {
    } else {
      PowerAdd(v, m, a, b - 1);
    }
  }

  lemma UniformDistribution(v: seq<real>)
    requires |v| > 0 && forall i :: 0 <= i < |v| ==> v[i] == 1.0 / |v| as real
    ensures Distribution(v)
  {
    SumConstant(v, 1.0 / |v| as real);
  }

  /** The largest entry of a distribution is at least the average. */
  lemma ArgmaxAtLeastUniform(v: seq<real>)
    requires |v| > 0 && Distribution(v)
    ensures Times(|v| as real, v[Argmax(v)]) >= 1.0
  {
    hide Times;
    SumBoundedBy(v, v[Argmax(v)]);
  }

  lemma {:induction false} SumBoundedBy(v: seq<real>, c: real)
    requires forall i :: 0 <= i < |v| ==> v[i] <= c
    ensures Sum(v) <= Times(|v| as real, c)
  {
    if v != [] {
      SumBoundedBy(v[1..], c);
      TimesSuccessor(|v| - 1, c);
    } else {
      assert Times(0.0, c) == 0.0;
    }
  }
}
