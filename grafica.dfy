/**
 * The race pie charts: the four race columns of a census tract and their
 * inflow variants, weighted by `total_population_CT`.
 */
module Grafica {
  import opened Wrappers
  import opened Frames
  import opened Sums
  import opened WeightedShares

  const WeightColumn := "total_population_CT"

  const WhiteColor := "#4e79a7"
  const BlackColor := "#f28e2b"
  const AsianColor := "#e15759"
  const HispanicColor := "#76b7b2"

  /** The base chart, in its fixed order white, black, asian, hispanic. */
  const RaceGroup: seq<Category> := [
    Category("White_CT", WhiteColor, "white_CT"),
    Category("Black_CT", BlackColor, "black_CT"),
    Category("Asian_CT", AsianColor, "asian_CT"),
    Category("Hispanic_CT", HispanicColor, "hispanic_CT")
  ]

  /** The inflow chart, in the same order and colours. */
  const InflowGroup: seq<Category> := [
    Category("White Inflow_CT", WhiteColor, "white_inflow_CT"),
    Category("Black Inflow_CT", BlackColor, "black_inflow_CT"),
    Category("Asian Inflow_CT", AsianColor, "asian_inflow_CT"),
    Category("Hispanic Inflow_CT", HispanicColor, "hispanic_inflow_CT")
  ]

  /** `raceData` and `inflowData`, from the one weighted pass over the frame. */
  method RacePies(frame: Frame) returns (r: Result<Pies, Error>)
    ensures r == PieData(frame, WeightColumn, RaceGroup, InflowGroup)
  {
    r := AggregatePies(frame, WeightColumn, RaceGroup, InflowGroup);
  }

  /**
   * Each chart has four segments in the order white, black, asian, hispanic;
   * segment k of both charts has the same colour, and its value is the share
   * of the column its key names, against the one population column.
   */
  lemma RaceSegments(frame: Frame)
    requires PieData(frame, WeightColumn, RaceGroup, InflowGroup).Ok?
    ensures var p := PieData(frame, WeightColumn, RaceGroup, InflowGroup).value;
      && |p.base| == 4 && |p.inflow| == 4
      && [p.base[0].key, p.base[1].key, p.base[2].key, p.base[3].key]
         == ["white_CT", "black_CT", "asian_CT", "hispanic_CT"]
      && [p.inflow[0].key, p.inflow[1].key, p.inflow[2].key, p.inflow[3].key]
         == ["white_inflow_CT", "black_inflow_CT", "asian_inflow_CT", "hispanic_inflow_CT"]
      && [p.base[0].color, p.base[1].color, p.base[2].color, p.base[3].color]
         == [WhiteColor, BlackColor, AsianColor, HispanicColor]
      && (forall k :: 0 <= k < 4 ==> p.base[k].color == p.inflow[k].color)
      && (forall k :: 0 <= k < 4 ==>
            && p.base[k].value == Share(ColumnOr(frame, p.base[k].key), frame[WeightColumn])
            && p.inflow[k].value == Share(ColumnOr(frame, p.inflow[k].key), frame[WeightColumn]))
  {
  }

  /**
   * When every tract's four race fractions add up to 1 and the total
   * population is a non-zero sum of numbers, the four race shares are defined
   * and add up to 100. The inflow columns need only be present: a NaN or a
   * short inflow column leaves these shares as they are.
   */
  lemma RaceSharesSumToHundred(frame: Frame)
    requires WeightColumn in frame && Numeric(frame[WeightColumn], |frame[WeightColumn]|)
    requires NumericGroup(frame, RaceGroup, |frame[WeightColumn]|) && GroupPresent(frame, InflowGroup)
    requires forall i :: 0 <= i < |frame[WeightColumn]| ==> FourColumnTotal(frame, RaceGroup, i) == 1.0
    requires Sum(Numbers(frame[WeightColumn], |frame[WeightColumn]|)) != 0.0
    ensures PieData(frame, WeightColumn, RaceGroup, InflowGroup).Ok?
    ensures forall s :: s in PieData(frame, WeightColumn, RaceGroup, InflowGroup).value.base ==> s.value.Some?
    ensures PercentSum(PieData(frame, WeightColumn, RaceGroup, InflowGroup).value.base) == 100.0
  {
    FourColumnSharesSumToHundred(frame, WeightColumn, RaceGroup, InflowGroup, RaceGroup);
  }

  /**
   * The same for the inflow chart, when every tract's four inflow fractions
   * add up to 1; the race columns need only be present.
   */
  lemma InflowSharesSumToHundred(frame: Frame)
    requires WeightColumn in frame && Numeric(frame[WeightColumn], |frame[WeightColumn]|)
    requires NumericGroup(frame, InflowGroup, |frame[WeightColumn]|) && GroupPresent(frame, RaceGroup)
    requires forall i :: 0 <= i < |frame[WeightColumn]| ==> FourColumnTotal(frame, InflowGroup, i) == 1.0
    requires Sum(Numbers(frame[WeightColumn], |frame[WeightColumn]|)) != 0.0
    ensures PieData(frame, WeightColumn, RaceGroup, InflowGroup).Ok?
    ensures forall s :: s in PieData(frame, WeightColumn, RaceGroup, InflowGroup).value.inflow ==> s.value.Some?
    ensures PercentSum(PieData(frame, WeightColumn, RaceGroup, InflowGroup).value.inflow) == 100.0
  {
    FourColumnSharesSumToHundred(frame, WeightColumn, RaceGroup, InflowGroup, InflowGroup);
  }
}
