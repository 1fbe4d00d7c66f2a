/**
 * The single-tract race pie: for the selected row, each race column's value
 * (a fraction of the tract's population) times 100.
 */
module Componente2 {
  import opened Wrappers
  import opened Frames

  const TractColumn := "tract_id"
  const PopulationColumn := "total_population_CT"

  /** A category of the pie: legend caption and the column it reads. */
  datatype RaceColumn = RaceColumn(caption: string, key: string)

  const Races: seq<RaceColumn> := [
    RaceColumn("White_CT", "white_CT"),
    RaceColumn("Black_CT", "black_CT"),
    RaceColumn("Asian_CT", "asian_CT"),
    RaceColumn("Hispanic_CT", "hispanic_CT")
  ]

  const Colors: seq<string> := ["#4e79a7", "#f28e2b", "#e15759", "#76b7b2"]

  const RaceKeys: seq<string> := ["white_CT", "black_CT", "asian_CT", "hispanic_CT"]

  /** A segment; `value` is None where the source computes NaN. */
  datatype RacialSlice = RacialSlice(caption: string, value: Option<real>, color: string)

  /** The row is one the tract list has. */
  predicate InRange(frame: Frame, index: int)
    requires TractColumn in frame
  {
    0 <= index < |frame[TractColumn]|
  }

  /** `colors[k]` with the caption and `values[index] * 100` of race k. */
  function SliceAt(frame: Frame, index: nat, k: nat): RacialSlice
    requires k < 4 && Races[k].key in frame
  {
    RacialSlice(Races[k].caption, Mul(ToNumber(Read(frame[Races[k].key], index)), Some(100.0)), Colors[k])
  }

  /**
   * `calculatePercentages(index)`. The tract column is read when the component
   * starts; an index outside it, or a population of exactly 0 on that row,
   * gives no segments; the race columns are then read in order and the first
   * absent one throws.
   */
  function CalculatePercentages(frame: Frame, index: int): (r: Result<seq<RacialSlice>, Error>)
    ensures r.Err? ==> r.error.key !in frame
    ensures TractColumn !in frame ==> r == Err(MissingColumn(TractColumn))
    ensures TractColumn in frame && !InRange(frame, index) ==> r == Ok([])
    ensures TractColumn in frame && InRange(frame, index) && PopulationColumn !in frame ==>
      r == Err(MissingColumn(PopulationColumn))
    ensures (TractColumn in frame && InRange(frame, index) && PopulationColumn in frame
             && Read(frame[PopulationColumn], index) == Num(0.0)) ==> r == Ok([])
    ensures (TractColumn in frame && InRange(frame, index) && PopulationColumn in frame
             && Read(frame[PopulationColumn], index) != Num(0.0)) ==>
      (r.Err? <==> exists k :: 0 <= k < 4 && Races[k].key !in frame)
    ensures r.Err? && TractColumn in frame && PopulationColumn in frame ==>
      exists k :: 0 <= k < 4 && r.error.key == Races[k].key && forall j :: 0 <= j < k ==> Races[j].key in frame
    ensures r.Ok? ==> |r.value| == 0 || |r.value| == 4
    ensures (r.Ok? && |r.value| == 4) <==>
      && TractColumn in frame && InRange(frame, index)
      && PopulationColumn in frame && Read(frame[PopulationColumn], index) != Num(0.0)
      && (forall k :: 0 <= k < 4 ==> Races[k].key in frame)
    ensures r.Ok? && |r.value| == 4 ==> forall k :: 0 <= k < 4 ==>
      && r.value[k].caption == Races[k].caption
      && r.value[k].color == Colors[k]
      && r.value[k].value == Mul(ToNumber(Read(frame[Races[k].key], index)), Some(100.0))
  {
    assert forall k :: 0 <= k < 4 ==> RaceKeys[k] == Races[k].key;
    if TractColumn !in frame then Err(MissingColumn(TractColumn))
    else if !InRange(frame, index) then Ok([])
    else if PopulationColumn !in frame then Err(MissingColumn(PopulationColumn))
    else if Read(frame[PopulationColumn], index) == Num(0.0) then Ok([])
    else match FirstMissing(frame, RaceKeys)
      case Some(key) =>
        var m := MissingFrom(frame, RaceKeys, 0);
        assert m.Some? && key == Races[m.value].key;
        Err(MissingColumn(key))
      case None => Ok(seq(4, k requires 0 <= k < 4 => SliceAt(frame, index, k)))
  }

  /** The four values added, undefined ones counting 0. */
  function SliceTotal(slices: seq<RacialSlice>): real
    requires |slices| == 4
  {
    slices[0].value.GetOr(0.0) + slices[1].value.GetOr(0.0) + slices[2].value.GetOr(0.0) + slices[3].value.GetOr(0.0)
  }

  /** When the tract's four fractions are numbers adding up to 1, the segments add up to 100. */
  lemma PercentagesSumToHundred(frame: Frame, index: int, fractions: seq<real>)
    requires |fractions| == 4
    requires CalculatePercentages(frame, index).Ok? && |CalculatePercentages(frame, index).value| == 4
    requires forall k :: 0 <= k < 4 ==> ToNumber(Read(frame[Races[k].key], index)) == Some(fractions[k])
    requires fractions[0] + fractions[1] + fractions[2] + fractions[3] == 1.0
    ensures forall k :: 0 <= k < 4 ==> CalculatePercentages(frame, index).value[k].value.Some?
    ensures SliceTotal(CalculatePercentages(frame, index).value) == 100.0
  {
    var slices := CalculatePercentages(frame, index).value;
    forall k | 0 <= k < 4 ensures slices[k].value == Some(fractions[k] * 100.0) {
      MulOfNumbers(fractions[k], 100.0);
    }
  }

  /** The five columns (tract, population, four races) read at one row, as far as the result can see them. */
  predicate SameRow(f: Frame, g: Frame, index: nat) {
    && (TractColumn in f <==> TractColumn in g)
    && (TractColumn in f ==> |f[TractColumn]| == |g[TractColumn]|)
    && (PopulationColumn in f <==> PopulationColumn in g)
    && (PopulationColumn in f ==> (Read(f[PopulationColumn], index) == Num(0.0) <==> Read(g[PopulationColumn], index) == Num(0.0)))
    && (forall k :: 0 <= k < 4 ==> (Races[k].key in f <==> Races[k].key in g))
    && (forall k :: 0 <= k < 4 && Races[k].key in f ==> Read(f[Races[k].key], index) == Read(g[Races[k].key], index))
  }

  /**
   * Only the selected row matters: two frames that agree on it (and on the
   * tract count, and on whether the population there is 0) give the same
   * segments. In particular no other row's values and no population other
   * than 0 change the result.
   */
  lemma OnlySelectedRowMatters(f: Frame, g: Frame, index: nat)
    requires SameRow(f, g, index)
    ensures CalculatePercentages(f, index) == CalculatePercentages(g, index)
  {
    assert forall k :: 0 <= k < 4 ==> RaceKeys[k] == Races[k].key;
    assert MissingFrom(f, RaceKeys, 0) == MissingFrom(g, RaceKeys, 0) by {
      MissingFromAgrees(f, g, 0);
    }
    var rf, rg := CalculatePercentages(f, index), CalculatePercentages(g, index);
    if rf.Ok? && |rf.value| == 4 {
      assert rg.Ok? && |rg.value| == 4;
      assert forall k :: 0 <= k < 4 ==> rf.value[k] == rg.value[k];
      assert rf.value == rg.value;
    }
  }

  /** Two frames holding the same race columns report the same first missing one. */
  lemma {:induction false} MissingFromAgrees(f: Frame, g: Frame, from: nat)
    requires from <= 4
    requires forall k :: 0 <= k < 4 ==> (RaceKeys[k] in f <==> RaceKeys[k] in g)
    ensures MissingFrom(f, RaceKeys, from) == MissingFrom(g, RaceKeys, from)
    decreases 4 - from
  {
    if from < 4 {
      MissingFromAgrees(f, g, from + 1);
    }
  }
}
