/**
 * The statistics panel for one attribute, second version: only numbers
 * survive the filter (null and NaN are dropped), every statistic defaults
 * to 0 when none survives, and a two-slice pie shows the valid values
 * against the dropped ones.
 *
 * The weighted average pairs the k-th surviving value with the k-th
 * population entry, not with the population of the row the value came
 * from. Once a row has been dropped, later values take the wrong weight;
 * the model keeps this behaviour and states it.
 */
module Rangos2 {
  import opened Wrappers
  import opened Frames
  import opened Sums
  import opened OrderStats

  const PopulationColumn := "total_population"
  const ValidColor := "#4e79a7"
  const NullColor := "#e15759"

  /** The number of cells that are null or NaN. */
  function CountNonNumbers(raw: seq<Cell>): nat {
    if |raw| == 0 then 0
    else CountNonNumbers(raw[..|raw| - 1]) + (if raw[|raw| - 1].Num? then 0 else 1)
  }

  /**
   * `rawValues.filter(v => v !== null && !isNaN(v))`: the numbers, in order;
   * every other cell is counted by `CountNonNumbers`.
   */
  function ValidNumbers(raw: seq<Cell>): (r: seq<real>)
    ensures |r| + CountNonNumbers(raw) == |raw|
    ensures forall x :: x in r <==> Num(x) in raw
  {
    if |raw| == 0 then []
    else
      var last := raw[|raw| - 1];
      assert raw == raw[..|raw| - 1] + [last];
      if last.Num? then ValidNumbers(raw[..|raw| - 1]) + [last.v] else ValidNumbers(raw[..|raw| - 1])
  }

  /** Filtering keeps the order of the rows. */
  lemma {:induction false} ValidNumbersDistributes(a: seq<Cell>, b: seq<Cell>)
    ensures ValidNumbers(a + b) == ValidNumbers(a) + ValidNumbers(b)
  {
    if |b| > 0 {
      var ab, init, last := a + b, b[..|b| - 1], b[|b| - 1];
      assert ab[..|ab| - 1] == a + init && ab[|ab| - 1] == last;
      ValidNumbersDistributes(a, init);
      assert ValidNumbers(b) == if last.Num? then ValidNumbers(init) + [last.v] else ValidNumbers(init);
      assert ValidNumbers(ab) == if last.Num? then ValidNumbers(a + init) + [last.v] else ValidNumbers(a + init);
    } else {
      assert a + b == a;
    }
  }

  // ---------------------------------------------------------------------
  // The weighted average

  /** `totalPopulation[k] || 0`: a number stays, and null, NaN or a missing entry is 0. */
  function PositionalWeight(pop: seq<Cell>, k: nat): real {
    match Read(pop, k)
    case Num(x) => x
    case _ => 0.0
  }

  /** The weights the loop uses: entry k of the population column for the k-th surviving value. */
  function PositionalWeights(pop: seq<Cell>, n: nat): (r: seq<real>)
    ensures |r| == n
  {
    seq(n, k requires 0 <= k < n => PositionalWeight(pop, k))
  }

  /** `totalPop > 0 ? weightedSum / totalPop : 0`, where both sums are 0 unless the population column has entries. */
  function Average(values: seq<real>, weights: seq<real>, hasPopulation: bool): real
    requires |values| == |weights|
  {
    if hasPopulation && Sum(weights) > 0.0 then WeightedMean(values, weights) else 0.0
  }

  /** What the panel computes as the weighted average of the surviving values. */
  function WeightedAverage(values: seq<real>, pop: seq<Cell>): real {
    Average(values, PositionalWeights(pop, |values|), |pop| > 0)
  }

  /** The guarded `forEach` over the surviving values, then the guarded quotient. */
  method ComputeWeightedAverage(values: seq<real>, pop: seq<Cell>) returns (avg: real)
    ensures avg == WeightedAverage(values, pop)
  {
    var weightedSum := 0.0;
    var totalPop := 0.0;
    if |pop| > 0 {
      var k := 0;
      while k < |values|
        invariant k <= |values|
        invariant weightedSum == WeightedSum(values[..k], PositionalWeights(pop, k))
        invariant totalPop == Sum(PositionalWeights(pop, k))
      {
        assert values[..k + 1][..k] == values[..k];
        assert PositionalWeights(pop, k + 1)[..k] == PositionalWeights(pop, k);
        var w := PositionalWeight(pop, k);
        weightedSum := weightedSum + values[k] * w;
        totalPop := totalPop + w;
        k := k + 1;
      }
      assert values[..|values|] == values;
    }
    if totalPop > 0.0 {
      avg := weightedSum / totalPop;
    } else {
      avg := 0.0;
    }
  }

  /**
   * With a positive total weight the result is the weighted mean of the
   * surviving values under the positional weights.
   */
  lemma WeightedAverageIsPositionalMean(values: seq<real>, pop: seq<Cell>)
    requires Sum(PositionalWeights(pop, |values|)) > 0.0
    ensures WeightedAverage(values, pop) == WeightedMean(values, PositionalWeights(pop, |values|))
  {
    if |pop| == 0 {
      SumOfZeros(PositionalWeights(pop, |values|));
    }
  }

  /** With non-negative weights and a positive total, the result lies between the minimum and the maximum. */
  lemma WeightedAverageBounds(values: seq<real>, pop: seq<Cell>)
    requires forall k :: 0 <= k < |values| ==> PositionalWeight(pop, k) >= 0.0
    requires Sum(PositionalWeights(pop, |values|)) > 0.0
    ensures |values| > 0
    ensures Min(values) <= WeightedAverage(values, pop) <= Max(values)
  {
    var ws := PositionalWeights(pop, |values|);
    if |values| == 0 {
      assert false;
    }
    WeightedAverageIsPositionalMean(values, pop);
    WeightedMeanBounds(values, ws, Min(values), Max(values));
  }

  /** The weights a row-aligned computation would use: the population of the row each surviving value came from. */
  function RowAlignedWeights(raw: seq<Cell>, pop: seq<Cell>): (r: seq<real>)
    ensures |r| == |ValidNumbers(raw)|
  {
    if |raw| == 0 then []
    else
      var i := |raw| - 1;
      var init := RowAlignedWeights(raw[..i], pop);
      if raw[i].Num? then init + [PositionalWeight(pop, i)] else init
  }

  /** The weighted average with every value weighted by its own row's population. */
  function RowAlignedAverage(raw: seq<Cell>, pop: seq<Cell>): real {
    Average(ValidNumbers(raw), RowAlignedWeights(raw, pop), |pop| > 0)
  }

  /** When no cell is dropped the positional weights are the row weights, so the two averages agree. */
  lemma {:induction false} AlignedWhenNothingDropped(raw: seq<Cell>, pop: seq<Cell>)
    requires forall i :: 0 <= i < |raw| ==> raw[i].Num?
    ensures RowAlignedWeights(raw, pop) == PositionalWeights(pop, |raw|)
    ensures WeightedAverage(ValidNumbers(raw), pop) == RowAlignedAverage(raw, pop)
  {
    if |raw| > 0 {
      var i := |raw| - 1;
      AlignedWhenNothingDropped(raw[..i], pop);
      assert PositionalWeights(pop, |raw|) == PositionalWeights(pop, i) + [PositionalWeight(pop, i)];
    }
  }

  /**
   * A dropped null shifts the weights: for the rows null, 1, 3 with
   * populations 100, 1, 1, the value 1 takes the null row's population 100, so
   * the panel shows 103/101 where the row-aligned average is 2.
   */
  lemma MisalignedAfterDroppedNull()
    ensures var raw, pop := [Null, Num(1.0), Num(3.0)], [Num(100.0), Num(1.0), Num(1.0)];
      && ValidNumbers(raw) == [1.0, 3.0]
      && WeightedAverage(ValidNumbers(raw), pop) == 103.0 / 101.0
      && RowAlignedAverage(raw, pop) == 2.0
  {
    var raw, pop := [Null, Num(1.0), Num(3.0)], [Num(100.0), Num(1.0), Num(1.0)];
    assert raw[..2] == [Null, Num(1.0)] && raw[..2][..1] == [Null];
    var values := ValidNumbers(raw);
    assert values == [1.0, 3.0];
    var positional := PositionalWeights(pop, 2);
    assert positional == [100.0, 1.0];
    TwoTermSums(values, positional);
    var aligned := RowAlignedWeights(raw, pop);
    assert aligned == [1.0, 1.0];
    TwoTermSums(values, aligned);
  }

  /** Σ and Σ·, written out for two terms. */
  lemma TwoTermSums(xs: seq<real>, ws: seq<real>)
    requires |xs| == |ws| == 2
    ensures Sum(ws) == ws[0] + ws[1]
    ensures WeightedSum(xs, ws) == xs[0] * ws[0] + xs[1] * ws[1]
  {
    assert xs[..1][..0] == [] && ws[..1][..0] == [];
    assert Sum(ws[..1]) == ws[0];
    assert WeightedSum(xs[..1], ws[..1]) == xs[0] * ws[0];
  }

  // ---------------------------------------------------------------------
  // The panel

  /** A slice of the valid-versus-null pie. */
  datatype PieEntry = PieEntry(caption: string, value: nat, color: string)

  datatype Summary = Summary(
    count: nat,
    nullCount: nat,
    uniqueCount: nat,
    stats: Stats,
    weightedAverage: Option<real>,
    pie: seq<PieEntry>)

  const ZeroStats := Stats(0.0, 0.0, 0.0, 0.0, 0.0, 0.0)

  /**
   * The pie of valid against dropped cells: "No nulos" with the count of
   * numbers, "Nulos" with the count of null and NaN cells; together they
   * account for every cell of the column.
   */
  function NullPie(raw: seq<Cell>): (r: seq<PieEntry>)
    ensures |r| == 2
    ensures r[0] == PieEntry("No nulos", |ValidNumbers(raw)|, ValidColor)
    ensures r[1] == PieEntry("Nulos", CountNonNumbers(raw), NullColor)
    ensures r[0].value + r[1].value == |raw|
  {
    var values := ValidNumbers(raw);
    [PieEntry("No nulos", |values|, ValidColor), PieEntry("Nulos", |raw| - |values|, NullColor)]
  }

  /**
   * Everything the panel computes for `attribute`. A missing attribute or
   * population column reads as an empty column (optional chaining), so there
   * is no error case. The weighted-average line exists only when the
   * population column has entries.
   */
  function Rangos2Data(frame: Frame, attribute: string): (r: Summary)
    ensures var raw := ColumnOr(frame, attribute);
      && r.count + r.nullCount == |raw|
      && r.nullCount == CountNonNumbers(raw)
      && r.uniqueCount <= r.count
      && (r.count > 0 ==> r.uniqueCount > 0)
      && (r.count == 0 ==> r.stats == ZeroStats)
      && (r.weightedAverage.Some? <==> |ColumnOr(frame, PopulationColumn)| > 0)
      && r.pie == NullPie(raw)
  {
    var raw := ColumnOr(frame, attribute);
    var pop := ColumnOr(frame, PopulationColumn);
    var values := ValidNumbers(raw);
    var nullCount := |raw| - |values|;
    DistinctCountBounds(values);
    Summary(
      |values|,
      nullCount,
      DistinctCount(values),
      if |values| > 0 then Describe(values) else ZeroStats,
      if |pop| > 0 then Some(WeightedAverage(values, pop)) else None,
      NullPie(raw))
  }

  /** When values survive, the statistics are ordered and bounded as `Describe` promises, over the numbers only. */
  lemma StatsOfValidNumbers(frame: Frame, attribute: string)
    requires Rangos2Data(frame, attribute).count > 0
    ensures var r := Rangos2Data(frame, attribute);
      var raw := ColumnOr(frame, attribute);
      && r.stats.min <= r.stats.q1 <= r.stats.median <= r.stats.q3 <= r.stats.max
      && Num(r.stats.min) in raw && Num(r.stats.max) in raw
      && (forall x :: Num(x) in raw ==> r.stats.min <= x <= r.stats.max)
      && r.stats.min <= r.stats.mean <= r.stats.max
  {
    var values := ValidNumbers(ColumnOr(frame, attribute));
    var s := Describe(values);
    assert s.min in values && s.max in values;
  }
}
