/**
 * Population-weighted category shares, the computation behind the race and
 * income pie charts. One pass over the weight column accumulates, for every
 * category column, Σ column[i]·weight[i], and once the shared denominator
 * Σ weight[i]; each share is (weighted / total) · 100. The charts differ
 * only in their columns, so the aggregator takes the categories as data.
 */
module WeightedShares {
  import opened Wrappers
  import opened Frames
  import opened Sums

  /** A pie category: legend caption (the source's `label`), fixed colour, and the column it is computed from. */
  datatype Category = Category(caption: string, color: string, key: string)

  /**
   * One pie segment. `value` is None where the source computes NaN or an
   * infinity (a NaN cell, or a total population of 0).
   */
  datatype PieSlice = PieSlice(caption: string, value: Option<real>, color: string, key: string)

  /** The two charts a component draws from one pass: base categories and their inflow variants. */
  datatype Pies = Pies(base: seq<PieSlice>, inflow: seq<PieSlice>)

  /** The column names of a group, in order. */
  function Keys(group: seq<Category>): (r: seq<string>)
    ensures |r| == |group|
    ensures forall k :: 0 <= k < |group| ==> r[k] == group[k].key
  {
    seq(|group|, k requires 0 <= k < |group| => group[k].key)
  }

  /** Σ col[i]·w[i] over rows 0..n-1 in JavaScript arithmetic (one NaN term makes it NaN). */
  function JsWeightedSum(col: seq<Cell>, w: seq<Cell>, n: nat): Option<real> {
    if n == 0 then Some(0.0)
    else Add(JsWeightedSum(col, w, n - 1), Mul(ToNumber(Read(col, n - 1)), ToNumber(Read(w, n - 1))))
  }

  /** Σ w[i] over rows 0..n-1 in JavaScript arithmetic. */
  function JsSum(w: seq<Cell>, n: nat): Option<real> {
    if n == 0 then Some(0.0) else Add(JsSum(w, n - 1), ToNumber(Read(w, n - 1)))
  }

  /** `(weighted / totalPopulation) * 100` for one category column, over all rows of `w`. */
  function Share(col: seq<Cell>, w: seq<Cell>): Option<real> {
    Mul(Div(JsWeightedSum(col, w, |w|), JsSum(w, |w|)), Some(100.0))
  }

  /** The records of a chart: category k gets value k. */
  function Slices(group: seq<Category>, values: seq<Option<real>>): (r: seq<PieSlice>)
    requires |values| == |group|
    ensures |r| == |group|
    ensures forall k :: 0 <= k < |group| ==>
              r[k] == PieSlice(group[k].caption, values[k], group[k].color, group[k].key)
  {
    seq(|group|, k requires 0 <= k < |group| => PieSlice(group[k].caption, values[k], group[k].color, group[k].key))
  }

  /** Every category's share, all against the one weight column `w`. */
  function GroupShares(frame: Frame, w: seq<Cell>, group: seq<Category>): (r: seq<PieSlice>)
    ensures |r| == |group|
    ensures forall k :: 0 <= k < |group| ==>
              && r[k].caption == group[k].caption && r[k].color == group[k].color && r[k].key == group[k].key
              && r[k].value == Share(ColumnOr(frame, group[k].key), w)
  {
    Slices(group, seq(|group|, k requires 0 <= k < |group| => Share(ColumnOr(frame, group[k].key), w)))
  }

  /**
   * What a pie component computes. The weight column is dereferenced first
   * and throws when absent; a category column is dereferenced only inside the
   * per-row callback, so a missing one fails only when there is a row.
   */
  function PieData(frame: Frame, weightKey: string, base: seq<Category>, inflow: seq<Category>): Result<Pies, Error> {
    if weightKey !in frame then Err(MissingColumn(weightKey))
    else
      var w := frame[weightKey];
      var missing := FirstMissing(frame, Keys(base) + Keys(inflow));
      if |w| > 0 && missing.Some? then Err(MissingColumn(missing.value))
      else Ok(Pies(GroupShares(frame, w, base), GroupShares(frame, w, inflow)))
  }

  /**
   * The single pass: one running weighted sum per category column (base and
   * inflow together) and one running total population, then the share records.
   */
  method AggregatePies(frame: Frame, weightKey: string, base: seq<Category>, inflow: seq<Category>)
    returns (r: Result<Pies, Error>)
    ensures r == PieData(frame, weightKey, base, inflow)
  {
    if weightKey !in frame {
      return Err(MissingColumn(weightKey));
    }
    var w := frame[weightKey];
    var keys := Keys(base) + Keys(inflow);
    var missing := FirstMissing(frame, keys);
    if |w| > 0 && missing.Some? {
      return Err(MissingColumn(missing.value));
    }
    var cols := seq(|keys|, j requires 0 <= j < |keys| => ColumnOr(frame, keys[j]));
    var weighted: seq<Option<real>> := seq(|keys|, j => Some(0.0));
    var totalPopulation: Option<real> := Some(0.0);
    var i := 0;
    while i < |w|
      invariant i <= |w|
      invariant |weighted| == |keys|
      invariant forall j :: 0 <= j < |keys| ==> weighted[j] == JsWeightedSum(cols[j], w, i)
      invariant totalPopulation == JsSum(w, i)
    {
      var population := ToNumber(w[i]);
      weighted := seq(|keys|, j requires 0 <= j < |keys| =>
                        Add(weighted[j], Mul(ToNumber(Read(cols[j], i)), population)));
      totalPopulation := Add(totalPopulation, population);
      i := i + 1;
    }
    var values := seq(|keys|, j requires 0 <= j < |keys| => Mul(Div(weighted[j], totalPopulation), Some(100.0)));
    assert forall j :: 0 <= j < |keys| ==> values[j] == Share(cols[j], w);
    var b := |base|;
    assert Slices(base, values[..b]) == GroupShares(frame, w, base) by {
      forall k | 0 <= k < b ensures values[..b][k] == Share(ColumnOr(frame, base[k].key), w) {
        assert keys[k] == base[k].key;
      }
    }
    assert Slices(inflow, values[b..]) == GroupShares(frame, w, inflow) by {
      forall k | 0 <= k < |inflow| ensures values[b..][k] == Share(ColumnOr(frame, inflow[k].key), w) {
        assert keys[b + k] == inflow[k].key;
      }
    }
    r := Ok(Pies(Slices(base, values[..b]), Slices(inflow, values[b..])));
  }

  // ---------------------------------------------------------------------
  // The shares in exact arithmetic

  /** Without NaN cells, the JavaScript weighted sum is the exact one. */
  lemma {:induction false} JsWeightedSumExact(col: seq<Cell>, w: seq<Cell>, n: nat)
    requires Numeric(col, n) && Numeric(w, n)
    ensures JsWeightedSum(col, w, n) == Some(WeightedSum(Numbers(col, n), Numbers(w, n)))
  {
    if n > 0 {
      assert Numbers(col, n)[..n - 1] == Numbers(col, n - 1);
      assert Numbers(w, n)[..n - 1] == Numbers(w, n - 1);
      JsWeightedSumExact(col, w, n - 1);
      var xs, ys := Numbers(col, n), Numbers(w, n);
      assert ToNumber(Read(col, n - 1)) == Some(xs[n - 1]);
      assert ToNumber(Read(w, n - 1)) == Some(ys[n - 1]);
      MulOfNumbers(xs[n - 1], ys[n - 1]);
      assert JsWeightedSum(col, w, n - 1) == Some(WeightedSum(xs[..n - 1], ys[..n - 1]));
      assert WeightedSum(xs, ys) == WeightedSum(xs[..n - 1], ys[..n - 1]) + xs[n - 1] * ys[n - 1];
      assert JsWeightedSum(col, w, n) == Add(JsWeightedSum(col, w, n - 1), Some(xs[n - 1] * ys[n - 1]));
    }
  }

  /** Without NaN cells, the JavaScript running total is the exact sum. */
  lemma {:induction false} JsSumExact(w: seq<Cell>, n: nat)
    requires Numeric(w, n)
    ensures JsSum(w, n) == Some(Sum(Numbers(w, n)))
  {
    if n > 0 {
      assert Numbers(w, n)[..n - 1] == Numbers(w, n - 1);
      assert ToNumber(Read(w, n - 1)) == Some(CellNumber(w, n - 1));
      JsSumExact(w, n - 1);
    }
  }

  /** One NaN weight (or a row past the end) makes the total NaN. */
  lemma {:induction false} JsSumPoisoned(w: seq<Cell>, n: nat, i: nat)
    requires i < n && IsNaN(Read(w, i))
    ensures JsSum(w, n) == None
  {
    if i < n - 1 {
      JsSumPoisoned(w, n - 1, i);
    }
  }

  /**
   * A share is the population-weighted mean of its column, times 100, when
   * no cell is NaN and the total population is not 0.
   */
  lemma ShareIsWeightedPercentage(col: seq<Cell>, w: seq<Cell>)
    requires Numeric(col, |w|) && Numeric(w, |w|)
    requires Sum(Numbers(w, |w|)) != 0.0
    ensures Share(col, w) == Some(WeightedMean(Numbers(col, |w|), Numbers(w, |w|)) * 100.0)
  {
    JsWeightedSumExact(col, w, |w|);
    JsSumExact(w, |w|);
  }

  /** There is no zero-total guard: a total population of 0 leaves every share undefined. */
  lemma ShareUndefinedWhenTotalIsZero(col: seq<Cell>, w: seq<Cell>)
    requires Numeric(w, |w|) && Sum(Numbers(w, |w|)) == 0.0
    ensures Share(col, w) == None
  {
    JsSumExact(w, |w|);
  }

  /** A NaN population cell leaves every share undefined. */
  lemma ShareUndefinedWhenWeightIsNaN(col: seq<Cell>, w: seq<Cell>, i: nat)
    requires i < |w| && w[i] == NaN
    ensures Share(col, w) == None
  {
    JsSumPoisoned(w, |w|, i);
  }

  /** The shares of a group added up, undefined ones counting 0. */
  function PercentSum(slices: seq<PieSlice>): real {
    if |slices| == 0 then 0.0
    else PercentSum(slices[..|slices| - 1]) + slices[|slices| - 1].value.GetOr(0.0)
  }

  /** Σ over the group's columns of row i's value: the row's total fraction. */
  function RowFraction(frame: Frame, group: seq<Category>, i: nat): real {
    if |group| == 0 then 0.0
    else RowFraction(frame, group[..|group| - 1], i) + CellNumber(ColumnOr(frame, group[|group| - 1].key), i)
  }

  /** The row fractions of the first n rows. */
  function RowFractions(frame: Frame, group: seq<Category>, n: nat): (r: seq<real>)
    ensures |r| == n
  {
    seq(n, i requires 0 <= i < n => RowFraction(frame, group, i))
  }

  /** Every column of the group is present and has no NaN in the first n rows. */
  predicate NumericGroup(frame: Frame, group: seq<Category>, n: nat) {
    forall k :: 0 <= k < |group| ==> group[k].key in frame && Numeric(frame[group[k].key], n)
  }

  /** Adding two weighted means over the same weights. */
  lemma WeightedMeanPlus(a: seq<real>, b: seq<real>, ws: seq<real>)
    requires |a| == |b| == |ws| && Sum(ws) != 0.0
    ensures WeightedMean(a, ws) * 100.0 + WeightedMean(b, ws) * 100.0 == WeightedMean(Plus(a, b), ws) * 100.0
  {
    var x, y, t := WeightedSum(a, ws), WeightedSum(b, ws), Sum(ws);
    assert x + y == WeightedSum(Plus(a, b), ws) by {
      WeightedSumPlus(a, b, ws);
    }
    PercentAdd(x, y, t);
  }

  /** (x / t)·100 + (y / t)·100 = ((x + y) / t)·100. */
  lemma PercentAdd(x: real, y: real, t: real)
    requires t != 0.0
    ensures x / t * 100.0 + y / t * 100.0 == (x + y) / t * 100.0
  {
  }

  /** The shares of a group add up to 100 times the weighted mean of the rows' total fractions. */
  lemma {:induction false} GroupPercentSum(frame: Frame, w: seq<Cell>, group: seq<Category>)
    requires Numeric(w, |w|) && NumericGroup(frame, group, |w|)
    requires Sum(Numbers(w, |w|)) != 0.0
    ensures PercentSum(GroupShares(frame, w, group)) == WeightedMean(RowFractions(frame, group, |w|), Numbers(w, |w|)) * 100.0
  {
    var n, ws := |w|, Numbers(w, |w|);
    var m := |group|;
    if m == 0 {
      assert forall i :: 0 <= i < n ==> RowFractions(frame, group, n)[i] == 0.0;
      WeightedSumZero(RowFractions(frame, group, n), ws);
    } else {
      var init := group[..m - 1];
      var last := ColumnOr(frame, group[m - 1].key);
      var rfInit := RowFractions(frame, init, n);
      assert GroupShares(frame, w, group)[..m - 1] == GroupShares(frame, w, init);
      assert PercentSum(GroupShares(frame, w, init)) == WeightedMean(rfInit, ws) * 100.0 by {
        NumericGroupPrefix(frame, group, n);
        GroupPercentSum(frame, w, init);
      }
      assert GroupShares(frame, w, group)[m - 1].value == Some(WeightedMean(Numbers(last, n), ws) * 100.0) by {
        ShareIsWeightedPercentage(last, w);
      }
      assert Plus(rfInit, Numbers(last, n)) == RowFractions(frame, group, n);
      WeightedMeanPlus(rfInit, Numbers(last, n), ws);
    }
  }

  /** Dropping the last category keeps a group free of NaN. */
  lemma NumericGroupPrefix(frame: Frame, group: seq<Category>, n: nat)
    requires |group| > 0 && NumericGroup(frame, group, n)
    ensures NumericGroup(frame, group[..|group| - 1], n)
  {
    var init := group[..|group| - 1];
    forall k | 0 <= k < |init| ensures init[k].key in frame && Numeric(frame[init[k].key], n) {
      assert init[k] == group[k];
    }
  }

  /** A column that is 0 on every row weights to 0. */
  lemma {:induction false} WeightedSumZero(a: seq<real>, ws: seq<real>)
    requires |a| == |ws|
    requires forall i :: 0 <= i < |a| ==> a[i] == 0.0
    ensures WeightedSum(a, ws) == 0.0
  {
    if |a| > 0 {
      WeightedSumZero(a[..|a| - 1], ws[..|ws| - 1]);
    }
  }

  /**
   * When every row's fractions over the group add up to 1 and the total
   * population is not 0, every share is defined and the shares add up to 100.
   */
  lemma SharesSumToHundred(frame: Frame, w: seq<Cell>, group: seq<Category>)
    requires Numeric(w, |w|) && NumericGroup(frame, group, |w|)
    requires forall i :: 0 <= i < |w| ==> RowFraction(frame, group, i) == 1.0
    requires Sum(Numbers(w, |w|)) != 0.0
    ensures forall s :: s in GroupShares(frame, w, group) ==> s.value.Some?
    ensures PercentSum(GroupShares(frame, w, group)) == 100.0
  {
    var n, ws := |w|, Numbers(w, |w|);
    var shares := GroupShares(frame, w, group);
    forall k | 0 <= k < |group| ensures shares[k].value.Some? {
      ShareIsWeightedPercentage(frame[group[k].key], w);
    }
    var rf := RowFractions(frame, group, n);
    WeightedMeanOfOnes(rf, ws);
    GroupPercentSum(frame, w, group);
  }

  /**
   * A chart reads only its own columns and the weights: frames that agree on
   * the group's columns give the same records, whatever the other columns hold.
   */
  lemma ChartReadsOnlyItsColumns(f: Frame, g: Frame, w: seq<Cell>, group: seq<Category>)
    requires forall k :: 0 <= k < |group| ==> ColumnOr(f, group[k].key) == ColumnOr(g, group[k].key)
    ensures GroupShares(f, w, group) == GroupShares(g, w, group)
  {
  }

  /**
   * A successful computation over at least one row names in every segment's
   * `key` a column of the frame, so the drill-down that receives the key finds it.
   */
  lemma SegmentKeysAreColumns(frame: Frame, weightKey: string, base: seq<Category>, inflow: seq<Category>)
    requires PieData(frame, weightKey, base, inflow).Ok?
    requires |frame[weightKey]| > 0
    ensures forall s :: s in PieData(frame, weightKey, base, inflow).value.base ==> s.key in frame
    ensures forall s :: s in PieData(frame, weightKey, base, inflow).value.inflow ==> s.key in frame
  {
    var keys := Keys(base) + Keys(inflow);
    assert forall k :: 0 <= k < |base| ==> keys[k] == base[k].key;
    assert forall k :: 0 <= k < |inflow| ==> keys[|base| + k] == inflow[k].key;
  }

  /** Every column of the group is a column of the frame. */
  predicate GroupPresent(frame: Frame, group: seq<Category>) {
    forall k :: 0 <= k < |group| ==> group[k].key in frame
  }

  /**
   * The computation fails exactly when the weight column is absent, or when
   * there is a row and some category column of either chart is absent. NaN
   * cells never make it fail: they only leave shares undefined.
   */
  lemma PieDataSucceeds(frame: Frame, weightKey: string, base: seq<Category>, inflow: seq<Category>)
    ensures PieData(frame, weightKey, base, inflow).Ok? <==>
      && weightKey in frame
      && (|frame[weightKey]| == 0 || (GroupPresent(frame, base) && GroupPresent(frame, inflow)))
  {
    var keys := Keys(base) + Keys(inflow);
    assert forall k :: 0 <= k < |base| ==> keys[k] == base[k].key;
    assert forall k :: 0 <= k < |inflow| ==> keys[|base| + k] == inflow[k].key;
    if GroupPresent(frame, base) && GroupPresent(frame, inflow) {
      forall i | 0 <= i < |keys| ensures keys[i] in frame {
        if i >= |base| {
          assert keys[i] == inflow[i - |base|].key;
        }
      }
    }
  }

  /** The four fractions of row i of a group of four columns, added. */
  function FourColumnTotal(frame: Frame, group: seq<Category>, i: nat): (r: real)
    requires |group| == 4
    ensures r == RowFraction(frame, group, i)
  {
    var c := k requires 0 <= k < 4 => CellNumber(ColumnOr(frame, group[k].key), i);
    assert group[..3][..2] == group[..2] && group[..2][..1] == group[..1] && group[..1][..0] == [];
    assert RowFraction(frame, group[..1], i) == c(0);
    assert RowFraction(frame, group[..2], i) == c(0) + c(1);
    assert RowFraction(frame, group[..3], i) == c(0) + c(1) + c(2);
    c(0) + c(1) + c(2) + c(3)
  }

  /**
   * A four-column chart whose row fractions add up to 1, over a NaN-free
   * weight column with a non-zero total, has defined shares adding up to 100.
   * Only the charted group has to be free of NaN; the other chart's columns
   * need only be present, since their values never enter this chart.
   */
  lemma FourColumnSharesSumToHundred(frame: Frame, weightKey: string, base: seq<Category>, inflow: seq<Category>,
                                     chart: seq<Category>)
    requires chart == base || chart == inflow
    requires |chart| == 4
    requires weightKey in frame && Numeric(frame[weightKey], |frame[weightKey]|)
    requires NumericGroup(frame, chart, |frame[weightKey]|)
    requires GroupPresent(frame, base) && GroupPresent(frame, inflow)
    requires forall i :: 0 <= i < |frame[weightKey]| ==> FourColumnTotal(frame, chart, i) == 1.0
    requires Sum(Numbers(frame[weightKey], |frame[weightKey]|)) != 0.0
    ensures PieData(frame, weightKey, base, inflow).Ok?
    ensures var p := PieData(frame, weightKey, base, inflow).value;
      var slices := if chart == base then p.base else p.inflow;
      && (forall s :: s in slices ==> s.value.Some?)
      && PercentSum(slices) == 100.0
  {
    PieDataSucceeds(frame, weightKey, base, inflow);
    forall i | 0 <= i < |frame[weightKey]| ensures RowFraction(frame, chart, i) == 1.0 {
      assert FourColumnTotal(frame, chart, i) == 1.0;
    }
    SharesSumToHundred(frame, frame[weightKey], chart);
  }
}
