/**
 * The income pie charts: the four income-bracket columns of a census tract
 * and their inflow variants, weighted by `total_population_CT`.
 */
module Grafica2 {
  import opened Wrappers
  import opened Frames
  import opened Sums
  import opened WeightedShares

  const WeightColumn := "total_population_CT"

  const Under50kColor := "#4e79a7"
  const FiftyTo100kColor := "#f28e2b"
  const HundredTo200kColor := "#e15759"
  const Over200kColor := "#76b7b2"

  /** The base chart; each bracket's caption is its column name. */
  const IncomeGroup: seq<Category> := [
    Category("Under $50K_CT", Under50kColor, "Under $50K_CT"),
    Category("$50K - $100K_CT", FiftyTo100kColor, "$50K - $100K_CT"),
    Category("$100K - $200K_CT", HundredTo200kColor, "$100K - $200K_CT"),
    Category("Over $200K_CT", Over200kColor, "Over $200K_CT")
  ]

  /** The inflow chart: same order and colours, captions that are not the column names. */
  const InflowGroup: seq<Category> := [
    Category("Under $50K Inflow_CT", Under50kColor, "Under $50K_inflow_CT"),
    Category("$50K - $100K Inflow_CT", FiftyTo100kColor, "$50K - $100K_inflow_CT"),
    Category("$100K - $200K Inflow_CT", HundredTo200kColor, "$100K - $200K_inflow_CT"),
    Category("Over $200K Inflow_CT", Over200kColor, "Over $200K_inflow_CT")
  ]

  /** `incomeData` and `inflowData`, from the one weighted pass over the frame. */
  method IncomePies(frame: Frame) returns (r: Result<Pies, Error>)
    ensures r == PieData(frame, WeightColumn, IncomeGroup, InflowGroup)
  {
    r := AggregatePies(frame, WeightColumn, IncomeGroup, InflowGroup);
  }

  /**
   * Each chart has four segments from the lowest bracket to the highest;
   * segment k of both charts has the same colour; a base segment's caption
   * is its key, an inflow segment's caption is not; each value is the share
   * of the column the key names.
   */
  lemma IncomeSegments(frame: Frame)
    requires PieData(frame, WeightColumn, IncomeGroup, InflowGroup).Ok?
    ensures var p := PieData(frame, WeightColumn, IncomeGroup, InflowGroup).value;
      && |p.base| == 4 && |p.inflow| == 4
      && [p.base[0].key, p.base[1].key, p.base[2].key, p.base[3].key]
         == ["Under $50K_CT", "$50K - $100K_CT", "$100K - $200K_CT", "Over $200K_CT"]
      && [p.inflow[0].key, p.inflow[1].key, p.inflow[2].key, p.inflow[3].key]
         == ["Under $50K_inflow_CT", "$50K - $100K_inflow_CT", "$100K - $200K_inflow_CT", "Over $200K_inflow_CT"]
      && [p.base[0].color, p.base[1].color, p.base[2].color, p.base[3].color]
         == [Under50kColor, FiftyTo100kColor, HundredTo200kColor, Over200kColor]
      && (forall k :: 0 <= k < 4 ==> p.base[k].color == p.inflow[k].color)
      && (forall k :: 0 <= k < 4 ==> p.base[k].caption == p.base[k].key)
      && (forall k :: 0 <= k < 4 ==> p.inflow[k].caption != p.inflow[k].key)
      && (forall k :: 0 <= k < 4 ==>
            && p.base[k].value == Share(ColumnOr(frame, p.base[k].key), frame[WeightColumn])
            && p.inflow[k].value == Share(ColumnOr(frame, p.inflow[k].key), frame[WeightColumn]))
  {
    var p := PieData(frame, WeightColumn, IncomeGroup, InflowGroup).value;
    forall k | 0 <= k < 4 ensures p.inflow[k].caption != p.inflow[k].key {
      // the captions read " Inflow_CT" where the keys read "_inflow_CT"
      var c, key := p.inflow[k].caption, p.inflow[k].key;
      assert |c| == |key| && c[|c| - 10] == ' ' && key[|key| - 10] == '_';
    }
  }

  /**
   * When every tract's four bracket fractions add up to 1 and the total
   * population is a non-zero sum of numbers, the four income shares are defined
   * and add up to 100. The inflow columns need only be present: a NaN or a
   * short inflow column leaves these shares as they are.
   */
  lemma IncomeSharesSumToHundred(frame: Frame)
    requires WeightColumn in frame && Numeric(frame[WeightColumn], |frame[WeightColumn]|)
    requires NumericGroup(frame, IncomeGroup, |frame[WeightColumn]|) && GroupPresent(frame, InflowGroup)
    requires forall i :: 0 <= i < |frame[WeightColumn]| ==> FourColumnTotal(frame, IncomeGroup, i) == 1.0
    requires Sum(Numbers(frame[WeightColumn], |frame[WeightColumn]|)) != 0.0
    ensures PieData(frame, WeightColumn, IncomeGroup, InflowGroup).Ok?
    ensures forall s :: s in PieData(frame, WeightColumn, IncomeGroup, InflowGroup).value.base ==> s.value.Some?
    ensures PercentSum(PieData(frame, WeightColumn, IncomeGroup, InflowGroup).value.base) == 100.0
  {
    FourColumnSharesSumToHundred(frame, WeightColumn, IncomeGroup, InflowGroup, IncomeGroup);
  }

  /**
   * The same for the inflow chart, when every tract's four inflow fractions
   * add up to 1; the bracket columns need only be present.
   */
  lemma InflowSharesSumToHundred(frame: Frame)
    requires WeightColumn in frame && Numeric(frame[WeightColumn], |frame[WeightColumn]|)
    requires NumericGroup(frame, InflowGroup, |frame[WeightColumn]|) && GroupPresent(frame, IncomeGroup)
    requires forall i :: 0 <= i < |frame[WeightColumn]| ==> FourColumnTotal(frame, InflowGroup, i) == 1.0
    requires Sum(Numbers(frame[WeightColumn], |frame[WeightColumn]|)) != 0.0
    ensures PieData(frame, WeightColumn, IncomeGroup, InflowGroup).Ok?
    ensures forall s :: s in PieData(frame, WeightColumn, IncomeGroup, InflowGroup).value.inflow ==> s.value.Some?
    ensures PercentSum(PieData(frame, WeightColumn, IncomeGroup, InflowGroup).value.inflow) == 100.0
  {
    FourColumnSharesSumToHundred(frame, WeightColumn, IncomeGroup, InflowGroup, InflowGroup);
  }
}
