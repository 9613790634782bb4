/** The reduction `average_list` of main.py: every metric that came out
    undefined (NaN) counts as 0, and the arithmetic mean of the list is taken. */
module Average {

  /** A metric value as the classifier panel reports it: a number, or NaN. */
  datatype Metric = Num(value: real) | NaN

  /** What `average_list` yields: the mean, or the ZeroDivisionError that
      Python raises when the list is empty. */
  datatype Mean = Mean(value: real) | ZeroDivision

  /** The list comprehension of `average_list`: NaN entries become 0. */
  function ZeroNaN(xs: seq<Metric>): seq<real>
  {
    seq(|xs|, i requires 0 <= i < |xs| => if xs[i].NaN? then 0.0 else xs[i].value)
  }

  /** Python's `sum`, adding from the left. */
  function Sum(ys: seq<real>): real
  {
    if ys == [] then 0.0 else Sum(ys[..|ys| - 1]) + ys[|ys| - 1]
  }

  /** The sum of the defined entries only: the numerator the NaN-as-0 policy
      amounts to. */
  function SumDefined(xs: seq<Metric>): real
  {
    if xs == [] then 0.0
    else match xs[0]
      case Num(x) => x + SumDefined(xs[1..])
      case NaN => SumDefined(xs[1..])
  }

  /** `average_list(xs)`: an error exactly for the empty list; otherwise the sum
      of the defined entries divided by the number of all entries, which lies in
      [0, 1] when every defined entry does. */
  function AverageList(xs: seq<Metric>): (r: Mean)
    ensures r.ZeroDivision? <==> xs == []
    ensures r.Mean? ==> r.value * (|xs| as real) == SumDefined(xs)
    ensures r.Mean? && (forall i :: 0 <= i < |xs| && xs[i].Num? ==> 0.0 <= xs[i].value <= 1.0) ==>
      0.0 <= r.value <= 1.0
  {
    if xs == [] then ZeroDivision
    else
      SumZeroNaN(xs);
      ZeroNaNSumBounds(xs);
      Mean(Sum(ZeroNaN(xs)) / (|xs| as real))
  }

  /** If every defined entry lies in [0, 1], the sum with NaN read as 0 lies
      between 0 and the number of entries. */
  lemma ZeroNaNSumBounds(xs: seq<Metric>)
    ensures (forall i :: 0 <= i < |xs| && xs[i].Num? ==> 0.0 <= xs[i].value <= 1.0) ==>
      0.0 <= Sum(ZeroNaN(xs)) <= |xs| as real
  {
    if forall i :: 0 <= i < |xs| && xs[i].Num? ==> 0.0 <= xs[i].value <= 1.0 {
      SumBounds(ZeroNaN(xs));
    }
  }

  /** Summing with NaN read as 0 is summing the defined entries. */
  lemma {:induction false} SumZeroNaN(xs: seq<Metric>)
    ensures Sum(ZeroNaN(xs)) == SumDefined(xs)
    decreases |xs|
  {
    if xs != [] {
      var last := xs[|xs| - 1];
      var init := xs[..|xs| - 1];
      assert ZeroNaN(xs)[..|xs| - 1] == ZeroNaN(init);
      SumZeroNaN(init);
      SumDefinedSnoc(init, last);
      assert xs == init + [last];
    }
  }

  /** `SumDefined` over a list with one more entry at the end. */
  lemma {:induction false} SumDefinedSnoc(xs: seq<Metric>, x: Metric)
    ensures SumDefined(xs + [x]) == SumDefined(xs) + (if x.NaN? then 0.0 else x.value)
    decreases |xs|
  {
    if xs == [] {
      assert [x][1..] == [];
    } else {
      assert (xs + [x])[1..] == xs[1..] + [x];
      SumDefinedSnoc(xs[1..], x);
    }
  }

  /** A sum of values in [0, 1] lies between 0 and the number of values. */
  lemma {:induction false} SumBounds(ys: seq<real>)
    requires forall i :: 0 <= i < |ys| ==> 0.0 <= ys[i] <= 1.0
    ensures 0.0 <= Sum(ys) <= |ys| as real
    decreases |ys|
  {
    if ys != [] {
      SumBounds(ys[..|ys| - 1]);
    }
  }

  /** An extra undefined metric never raises the mean of non-negative metrics. */
  lemma ExtraNaNLowersMean(xs: seq<Metric>)
    requires xs != []
    requires forall i :: 0 <= i < |xs| && xs[i].Num? ==> 0.0 <= xs[i].value
    ensures AverageList(xs + [NaN]).value <= AverageList(xs).value
  {
    SumDefinedSnoc(xs, NaN);
    SumDefinedNonNegative(xs);
    var s := SumDefined(xs);
    var n := |xs| as real;
    MeanOfMoreEntries(s, n, AverageList(xs + [NaN]).value, AverageList(xs).value);
  }

  /** The same non-negative total spread over one more entry gives a smaller share. */
  lemma MeanOfMoreEntries(s: real, n: real, longer: real, shorter: real)
    requires 0.0 < n && 0.0 <= s
    requires longer * (n + 1.0) == s && shorter * n == s
    ensures longer <= shorter
  {
    assert longer == s / (n + 1.0);
    assert shorter == s / n;
  }

  /** The defined entries of non-negative metrics sum to a non-negative value. */
  lemma {:induction false} SumDefinedNonNegative(xs: seq<Metric>)
    requires forall i :: 0 <= i < |xs| && xs[i].Num? ==> 0.0 <= xs[i].value
    ensures 0.0 <= SumDefined(xs)
    decreases |xs|
  {
    if xs != [] {
      SumDefinedNonNegative(xs[1..]);
    }
  }
}
