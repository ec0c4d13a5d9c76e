/** Statistics over the sample population: the element-wise mean (np.average along
    axis 0) and standard deviation (np.std along axis 0, population form) of the stored
    height profiles. */
module Statistics {
  import opened Basics
  import opened Numerics
  import opened DecayIndex

  /** Every profile of the population has m entries. */
  predicate Uniform(pop: seq<Profile>, m: nat) {
    forall i :: 0 <= i < |pop| ==> |pop[i]| == m
  }

  /** The sum of entry k over all profiles. */
  function ColumnSum(pop: seq<Profile>, k: nat): real
    requires forall i :: 0 <= i < |pop| ==> k < |pop[i]|
    decreases |pop|
  {
    if pop == [] then 0.0 else ColumnSum(pop[..|pop| - 1], k) + pop[|pop| - 1][k]
  }

  /** The sum over all profiles of the squared deviation of entry k from mu. */
  function DeviationSum(pop: seq<Profile>, mu: real, k: nat): real
    requires forall i :: 0 <= i < |pop| ==> k < |pop[i]|
    decreases |pop|
  {
    if pop == [] then 0.0
    else DeviationSum(pop[..|pop| - 1], mu, k) + (pop[|pop| - 1][k] - mu) * (pop[|pop| - 1][k] - mu)
  }

  /** The element-wise arithmetic mean of the population. An empty population is a
      state error rather than a profile of NaNs; profiles of different lengths cannot
      form an array. */
  function Mean(pop: seq<Profile>): (r: Result<Profile>)
    ensures r.Success? <==> |pop| > 0 && Uniform(pop, |pop[0]|)
    ensures r.Failure? ==> r.error == (if |pop| == 0 then EmptyPopulation else RaggedPopulation)
    ensures r.Success? ==> |r.value| == |pop[0]|
  {
    if |pop| == 0 then Failure(EmptyPopulation)
    else if !Uniform(pop, |pop[0]|) then Failure(RaggedPopulation)
    else Success(seq(|pop[0]|, k requires 0 <= k < |pop[0]| => ColumnSum(pop, k) / |pop| as real))
  }

  /** The element-wise population variance: mean squared deviation from the mean. */
  function Variance(pop: seq<Profile>): (r: Result<Profile>)
    ensures r.Success? <==> Mean(pop).Success?
    ensures r.Success? ==> |r.value| == |pop[0]|
  {
    var mean := Mean(pop);
    if mean.Failure? then mean
    else Success(seq(|pop[0]|, k requires 0 <= k < |pop[0]| => DeviationSum(pop, mean.value[k], k) / |pop| as real))
  }

  /** The averaged profile and its error bars, as drawn after every click. */
  datatype Summary = Summary(mean: Profile, std: Profile)

  function Summarize(lib: Library, pop: seq<Profile>): (r: Result<Summary>)
    ensures r.Success? <==> Mean(pop).Success?
    ensures r.Success? ==> r.value.mean == Mean(pop).value && |r.value.std| == |pop[0]|
    ensures r.Success? ==> Variance(pop).Success? && |Variance(pop).value| == |r.value.std|
    ensures r.Success? ==> forall k :: 0 <= k < |r.value.std| ==> r.value.std[k] == lib.sqrt(Variance(pop).value[k])
  {
    var variance := Variance(pop);
    if variance.Failure? then Failure(variance.error)
    else Success(Summary(Mean(pop).value, seq(|variance.value|, k requires 0 <= k < |variance.value| => lib.sqrt(variance.value[k]))))
  }

  lemma {:induction false} ColumnSumOfIdentical(pop: seq<Profile>, v: Profile, k: nat)
    requires k < |v| && forall i :: 0 <= i < |pop| ==> pop[i] == v
    ensures ColumnSum(pop, k) == |pop| as real * v[k]
    decreases |pop|
  {
    if pop != [] {
      ColumnSumOfIdentical(pop[..|pop| - 1], v, k);
    }
  }

  lemma {:induction false} DeviationSumOfIdentical(pop: seq<Profile>, v: Profile, k: nat)
    requires k < |v| && forall i :: 0 <= i < |pop| ==> pop[i] == v
    ensures DeviationSum(pop, v[k], k) == 0.0
    decreases |pop|
  {
    if pop != [] {
      DeviationSumOfIdentical(pop[..|pop| - 1], v, k);
    }
  }

  /** A population of identical profiles averages to that profile, with zero variance:
      every error bar has length sqrt(0). */
  lemma MeanOfIdentical(pop: seq<Profile>, v: Profile)
    requires |pop| > 0 && forall i :: 0 <= i < |pop| ==> pop[i] == v
    ensures Mean(pop) == Success(v)
    ensures Variance(pop).Success? && forall k :: 0 <= k < |v| ==> Variance(pop).value[k] == 0.0
  {
    assert Uniform(pop, |pop[0]|);
    var mean := Mean(pop).value;
    forall k | 0 <= k < |v| ensures mean[k] == v[k] {
      ColumnSumOfIdentical(pop, v, k);
    }
    assert mean == v;
    forall k | 0 <= k < |v| ensures Variance(pop).value[k] == 0.0 {
      DeviationSumOfIdentical(pop, v, k);
    }
  }

  lemma {:induction false} ColumnSumBounds(pop: seq<Profile>, k: nat, lo: real, hi: real)
    requires forall i :: 0 <= i < |pop| ==> k < |pop[i]| && lo <= pop[i][k] <= hi
    ensures |pop| as real * lo <= ColumnSum(pop, k) <= |pop| as real * hi
    decreases |pop|
  {
    if pop != [] {
      ColumnSumBounds(pop[..|pop| - 1], k, lo, hi);
    }
  }

  /** Each entry of the mean lies between the smallest and the largest value the
      profiles hold at that height. */
  lemma MeanWithinBounds(pop: seq<Profile>, k: nat, lo: real, hi: real)
    requires Mean(pop).Success? && k < |pop[0]|
    requires forall i :: 0 <= i < |pop| ==> lo <= pop[i][k] <= hi
    ensures lo <= Mean(pop).value[k] <= hi
  {
    ColumnSumBounds(pop, k, lo, hi);
    var n := |pop| as real;
    var s := ColumnSum(pop, k);
    assert Mean(pop).value[k] == s / n;
    QuotientBounds(s, n, lo, hi);
  }

  lemma QuotientBounds(s: real, n: real, lo: real, hi: real)
    requires n > 0.0 && n * lo <= s <= n * hi
    ensures lo <= s / n <= hi
  {
    assert (n * lo) / n == lo && (n * hi) / n == hi;
    DivMonotone(n * lo, s, n);
    DivMonotone(s, n * hi, n);
  }

  lemma DivMonotone(a: real, b: real, n: real)
    requires n > 0.0 && a <= b
    ensures a / n <= b / n
  {
    assert b / n - a / n == (b - a) / n;
  }

  lemma SquareNonNegative(d: real)
    ensures d * d >= 0.0
  {
    if d < 0.0 {
      assert d * d == (-d) * (-d);
    }
  }

  lemma {:induction false} DeviationSumNonNegative(pop: seq<Profile>, mu: real, k: nat)
    requires forall i :: 0 <= i < |pop| ==> k < |pop[i]|
    ensures DeviationSum(pop, mu, k) >= 0.0
    decreases |pop|
  {
    if pop != [] {
      DeviationSumNonNegative(pop[..|pop| - 1], mu, k);
      SquareNonNegative(pop[|pop| - 1][k] - mu);
    }
  }

  /** The variance is never negative. */
  lemma VarianceNonNegative(pop: seq<Profile>)
    requires Variance(pop).Success?
    ensures forall k :: 0 <= k < |Variance(pop).value| ==> Variance(pop).value[k] >= 0.0
  {
    forall k | 0 <= k < |Variance(pop).value| ensures Variance(pop).value[k] >= 0.0 {
      DeviationSumNonNegative(pop, Mean(pop).value[k], k);
    }
  }

  lemma {:induction false} ColumnSumConcat(a: seq<Profile>, b: seq<Profile>, k: nat)
    requires forall i :: 0 <= i < |a| ==> k < |a[i]|
    requires forall i :: 0 <= i < |b| ==> k < |b[i]|
    ensures ColumnSum(a + b, k) == ColumnSum(a, k) + ColumnSum(b, k)
    decreases |b|
  {
    if b != [] {
      var b' := b[..|b| - 1];
      assert (a + b)[..|a + b| - 1] == a + b';
      assert (a + b)[|a + b| - 1] == b[|b| - 1];
      ColumnSumConcat(a, b', k);
      assert ColumnSum(a + b, k) == ColumnSum(a + b', k) + b[|b| - 1][k];
      assert ColumnSum(b, k) == ColumnSum(b', k) + b[|b| - 1][k];
    } else {
      assert a + b == a;
    }
  }

  /** Because every cell is stored on its own, the mean over two groups of cells is the
      mean of the group means weighted by the number of cells in each, not the plain
      average of the two group means. */
  lemma MeanOfUnion(a: seq<Profile>, b: seq<Profile>, k: nat)
    requires Mean(a).Success? && Mean(b).Success? && |a[0]| == |b[0]| && k < |a[0]|
    ensures Mean(a + b).Success?
    ensures Mean(a + b).value[k] ==
      (|a| as real * Mean(a).value[k] + |b| as real * Mean(b).value[k]) / (|a| + |b|) as real
  {
    var m := |a[0]|;
    assert Uniform(a + b, m) by {
      forall i | 0 <= i < |a + b| ensures |(a + b)[i]| == m {
        if i >= |a| { assert (a + b)[i] == b[i - |a|]; }
      }
    }
    ColumnSumConcat(a, b, k);
    var na, nb := |a| as real, |b| as real;
    assert |a| as real * Mean(a).value[k] == ColumnSum(a, k);
    assert |b| as real * Mean(b).value[k] == ColumnSum(b, k);
  }
}
