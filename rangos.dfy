/**
 * The statistics panel for one selected column (the drill-down a pie
 * segment opens): non-NaN count, distinct count, order statistics, mean,
 * population-weighted mean and a ten-row preview.
 *
 * Its filter is `!isNaN(v)`, which keeps null (`isNaN(null)` is false), so a
 * null survives: it is a value of its own for the distinct count, and the
 * number 0 everywhere arithmetic or comparison touches it. There is no guard
 * for an empty column.
 */
module Rangos {
  import opened Wrappers
  import opened Frames
  import opened Sums
  import opened OrderStats

  const GeoidColumn := "GEOID"
  const PopulationColumn := "total_population"
  const PreviewLength := 10

  /** `values.filter(v => !isNaN(v))`, in order. */
  function NonNaN(values: seq<Cell>): (r: seq<Cell>)
    ensures |r| <= |values|
  {
    if |values| == 0 then []
    else
      var last := values[|values| - 1];
      assert values == values[..|values| - 1] + [last];
      if IsNaN(last) then NonNaN(values[..|values| - 1]) else NonNaN(values[..|values| - 1]) + [last]
  }

  /** The filter keeps exactly the cells that are not NaN. */
  lemma {:induction false} NonNaNMembers(values: seq<Cell>)
    ensures forall c :: c in NonNaN(values) <==> c in values && !IsNaN(c)
  {
    if |values| > 0 {
      var init := values[..|values| - 1];
      NonNaNMembers(init);
      assert values == init + [values[|values| - 1]];
    }
  }

  /** Filtering keeps the order of the rows: filtering two halves and joining them is filtering the whole. */
  lemma {:induction false} NonNaNDistributes(a: seq<Cell>, b: seq<Cell>)
    ensures NonNaN(a + b) == NonNaN(a) + NonNaN(b)
  {
    if |b| > 0 {
      var ab, init, last := a + b, b[..|b| - 1], b[|b| - 1];
      assert ab[..|ab| - 1] == a + init && ab[|ab| - 1] == last;
      NonNaNDistributes(a, init);
      assert NonNaN(b) == if IsNaN(last) then NonNaN(init) else NonNaN(init) + [last];
      assert NonNaN(ab) == if IsNaN(last) then NonNaN(a + init) else NonNaN(a + init) + [last];
    } else {
      assert a + b == a;
    }
  }

  /** The surviving cells as the numbers the statistics see: null becomes 0. */
  function SurvivingNumbers(values: seq<Cell>): (r: seq<real>)
    ensures |r| == |NonNaN(values)|
  {
    if |values| == 0 then []
    else
      var init := SurvivingNumbers(values[..|values| - 1]);
      var last := values[|values| - 1];
      if IsNaN(last) then init else init + [ToNumber(last).value]
  }

  /** x is a surviving number exactly when the column holds x, or x is 0 and the column holds a null. */
  lemma {:induction false} SurvivingNumbersMembers(values: seq<Cell>)
    ensures forall x :: x in SurvivingNumbers(values) <==> Num(x) in values || (x == 0.0 && Null in values)
  {
    if |values| > 0 {
      var init := values[..|values| - 1];
      SurvivingNumbersMembers(init);
      assert values == init + [values[|values| - 1]];
    }
  }

  // ---------------------------------------------------------------------
  // The weighted average (one pass over the rows)

  /** Σ value·population over the surviving rows, in JavaScript arithmetic. */
  function KeptWeightedSum(values: seq<Cell>, pop: seq<Cell>): Option<real> {
    if |values| == 0 then Some(0.0)
    else
      var i := |values| - 1;
      var init := KeptWeightedSum(values[..i], pop);
      if IsNaN(values[i]) then init else Add(init, Mul(ToNumber(values[i]), ToNumber(Read(pop, i))))
  }

  /** Σ population over the surviving rows, in JavaScript arithmetic. */
  function KeptPopulation(values: seq<Cell>, pop: seq<Cell>): Option<real> {
    if |values| == 0 then Some(0.0)
    else
      var i := |values| - 1;
      var init := KeptPopulation(values[..i], pop);
      if IsNaN(values[i]) then init else Add(init, ToNumber(Read(pop, i)))
  }

  /** A surviving row's value is a number, so its product is NaN exactly when its population is. */
  lemma {:induction false} KeptSumsDefinedTogether(values: seq<Cell>, pop: seq<Cell>)
    ensures KeptWeightedSum(values, pop).Some? <==> KeptPopulation(values, pop).Some?
  {
    if |values| > 0 {
      KeptSumsDefinedTogether(values[..|values| - 1], pop);
    }
  }

  /**
   * `totalPop > 0 ? weightedSum / totalPop : 0`. A NaN total fails the test,
   * so the result is always a number.
   */
  function WeightedAverage(values: seq<Cell>, pop: seq<Cell>): (r: Option<real>)
    ensures r.Some?
    ensures KeptPopulation(values, pop).None? ==> r == Some(0.0)
  {
    var t := KeptPopulation(values, pop);
    KeptSumsDefinedTogether(values, pop);
    if t.Some? && t.value > 0.0 then Div(KeptWeightedSum(values, pop), t) else Some(0.0)
  }

  /** The `forEach` loop that accumulates `weightedSum` and `totalPop`, then the guarded quotient. */
  method ComputeWeightedAverage(values: seq<Cell>, pop: seq<Cell>) returns (avg: Option<real>)
    ensures avg == WeightedAverage(values, pop)
  {
    var weightedSum: Option<real> := Some(0.0);
    var totalPop: Option<real> := Some(0.0);
    var i := 0;
    while i < |values|
      invariant i <= |values|
      invariant weightedSum == KeptWeightedSum(values[..i], pop)
      invariant totalPop == KeptPopulation(values[..i], pop)
    {
      assert values[..i + 1][..i] == values[..i];
      if !IsNaN(values[i]) {
        var population := ToNumber(Read(pop, i));
        weightedSum := Add(weightedSum, Mul(ToNumber(values[i]), population));
        totalPop := Add(totalPop, population);
      }
      i := i + 1;
    }
    assert values[..|values|] == values;
    if totalPop.Some? && totalPop.value > 0.0 {
      avg := Div(weightedSum, totalPop);
    } else {
      avg := Some(0.0);
    }
  }

  /** The populations of the surviving rows, row for row with `SurvivingNumbers`. */
  function KeptWeights(values: seq<Cell>, pop: seq<Cell>): (r: seq<real>)
    ensures |r| == |SurvivingNumbers(values)|
  {
    if |values| == 0 then []
    else
      var i := |values| - 1;
      var init := KeptWeights(values[..i], pop);
      if IsNaN(values[i]) then init else init + [CellNumber(pop, i)]
  }

  /** Every surviving row has a population that is a number. */
  predicate KeptWeightsNumeric(values: seq<Cell>, pop: seq<Cell>) {
    forall i :: 0 <= i < |values| && !IsNaN(values[i]) ==> !IsNaN(Read(pop, i))
  }

  /** Without NaN populations on surviving rows, the JavaScript total population is the exact one. */
  lemma {:induction false} KeptPopulationExact(values: seq<Cell>, pop: seq<Cell>)
    requires KeptWeightsNumeric(values, pop)
    ensures KeptPopulation(values, pop) == Some(Sum(KeptWeights(values, pop)))
  {
    if |values| > 0 {
      var i := |values| - 1;
      var init := values[..i];
      assert KeptWeightsNumeric(init, pop);
      KeptPopulationExact(init, pop);
      if !IsNaN(values[i]) {
        var ws, w := KeptWeights(values, pop), CellNumber(pop, i);
        assert ws[..|ws| - 1] == KeptWeights(init, pop) && ws[|ws| - 1] == w;
        assert ToNumber(Read(pop, i)) == Some(w);
        assert Sum(ws) == Sum(KeptWeights(init, pop)) + w;
      }
    }
  }

  /** Without NaN populations on surviving rows, the JavaScript weighted sum is the exact one. */
  lemma {:induction false} KeptWeightedSumExact(values: seq<Cell>, pop: seq<Cell>)
    requires KeptWeightsNumeric(values, pop)
    ensures KeptWeightedSum(values, pop) == Some(WeightedSum(SurvivingNumbers(values), KeptWeights(values, pop)))
  {
    if |values| > 0 {
      var i := |values| - 1;
      var init := values[..i];
      assert KeptWeightsNumeric(init, pop);
      KeptWeightedSumExact(init, pop);
      if !IsNaN(values[i]) {
        var xs, ws := SurvivingNumbers(values), KeptWeights(values, pop);
        var x, w := ToNumber(values[i]).value, CellNumber(pop, i);
        assert xs[..|xs| - 1] == SurvivingNumbers(init) && xs[|xs| - 1] == x;
        assert ws[..|ws| - 1] == KeptWeights(init, pop) && ws[|ws| - 1] == w;
        assert ToNumber(Read(pop, i)) == Some(w);
        MulOfNumbers(x, w);
        assert WeightedSum(xs, ws) == WeightedSum(SurvivingNumbers(init), KeptWeights(init, pop)) + x * w;
      }
    }
  }

  /**
   * With numeric populations on the surviving rows and a positive total, the
   * result is the population-weighted mean of the surviving numbers.
   */
  lemma WeightedAverageIsWeightedMean(values: seq<Cell>, pop: seq<Cell>)
    requires KeptWeightsNumeric(values, pop)
    requires Sum(KeptWeights(values, pop)) > 0.0
    ensures WeightedAverage(values, pop) == Some(WeightedMean(SurvivingNumbers(values), KeptWeights(values, pop)))
  {
    KeptPopulationExact(values, pop);
    KeptWeightedSumExact(values, pop);
  }

  /**
   * With non-negative populations and a positive total, the weighted average
   * lies between the smallest and the largest surviving number.
   */
  lemma WeightedAverageBounds(values: seq<Cell>, pop: seq<Cell>)
    requires KeptWeightsNumeric(values, pop)
    requires forall i :: 0 <= i < |KeptWeights(values, pop)| ==> KeptWeights(values, pop)[i] >= 0.0
    requires Sum(KeptWeights(values, pop)) > 0.0
    ensures |SurvivingNumbers(values)| > 0
    ensures Min(SurvivingNumbers(values)) <= WeightedAverage(values, pop).value <= Max(SurvivingNumbers(values))
  {
    var xs, ws := SurvivingNumbers(values), KeptWeights(values, pop);
    WeightedAverageIsWeightedMean(values, pop);
    WeightedMeanBounds(xs, ws, Min(xs), Max(xs));
  }

  /** A surviving row with a NaN population makes the whole total NaN, and the average 0. */
  lemma {:induction false} WeightedAverageZeroOnNaNPopulation(values: seq<Cell>, pop: seq<Cell>, i: nat)
    requires i < |values| && !IsNaN(values[i]) && IsNaN(Read(pop, i))
    ensures KeptPopulation(values, pop).None?
    ensures WeightedAverage(values, pop) == Some(0.0)
  {
    if i < |values| - 1 {
      WeightedAverageZeroOnNaNPopulation(values[..|values| - 1], pop, i);
    }
  }

  // ---------------------------------------------------------------------
  // The preview table

  /** A preview line: the row index (whose GEOID the line shows) and the cell, shown "N/A" when NaN. */
  datatype PreviewRow = PreviewRow(row: nat, value: Cell)

  /** The first rows, and the count the "and n more regions" line shows when there are more. */
  datatype Preview = Preview(rows: seq<PreviewRow>, more: Option<nat>)

  /**
   * `values.slice(0, 10)` and `values.length > 10 && values.length - 10`:
   * the first min(10, n) rows, then the count of the rows not shown.
   */
  function PreviewOf(values: seq<Cell>): (r: Preview)
    ensures |values| <= PreviewLength ==> |r.rows| == |values|
    ensures |values| > PreviewLength ==> |r.rows| == PreviewLength && r.more == Some(|values| - PreviewLength)
    ensures forall k :: 0 <= k < |r.rows| ==> r.rows[k].row == k && r.rows[k].value == values[k]
    ensures r.more.Some? <==> |values| > PreviewLength
    ensures |r.rows| + r.more.GetOr(0) == |values|
  {
    var shown := if |values| < PreviewLength then |values| else PreviewLength;
    Preview(seq(shown, k requires 0 <= k < shown => PreviewRow(k, values[k])),
            if |values| > PreviewLength then Some(|values| - PreviewLength) else None)
  }

  // ---------------------------------------------------------------------
  // The panel

  datatype Summary = Summary(
    nonNullCount: nat,
    uniqueCount: nat,
    stats: Option<Stats>,
    weightedAverage: Option<real>,
    preview: Preview)

  /**
   * Everything the panel computes for `selectedKey`. The three columns are
   * dereferenced in the order the selected column, GEOID, total_population,
   * and the first absent one throws. With no surviving value there are no
   * statistics: the quartiles are `undefined` in the source.
   */
  function RangosData(frame: Frame, selectedKey: string): (r: Result<Summary, Error>)
    ensures r.Ok? <==> selectedKey in frame && GeoidColumn in frame && PopulationColumn in frame
    ensures r.Err? ==> r.error.key !in frame
    ensures r.Ok? ==>
      && r.value.uniqueCount <= r.value.nonNullCount <= |frame[selectedKey]|
      && (r.value.stats.None? <==> r.value.nonNullCount == 0)
      && (r.value.nonNullCount > 0 ==> r.value.uniqueCount > 0)
      && r.value.weightedAverage.Some?
  {
    if selectedKey !in frame then Err(MissingColumn(selectedKey))
    else if GeoidColumn !in frame then Err(MissingColumn(GeoidColumn))
    else if PopulationColumn !in frame then Err(MissingColumn(PopulationColumn))
    else
      var values := frame[selectedKey];
      var kept := NonNaN(values);
      var nums := SurvivingNumbers(values);
      DistinctCountBounds(kept);
      Ok(Summary(
        |kept|,
        DistinctCount(kept),
        if |nums| == 0 then None else Some(Describe(nums)),
        WeightedAverage(values, frame[PopulationColumn]),
        PreviewOf(values)))
  }

  /** A null and a 0 count as two distinct values, yet both enter the statistics as 0. */
  lemma NullIsZeroButDistinct()
    ensures var values := [Null, Num(0.0)];
      && NonNaN(values) == values
      && DistinctCount(NonNaN(values)) == 2
      && SurvivingNumbers(values) == [0.0, 0.0]
  {
    var values := [Null, Num(0.0)];
    assert values[..1] == [Null];
    assert (set x | x in values) == {Null, Num(0.0)};
  }
}
