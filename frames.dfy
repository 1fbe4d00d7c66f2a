/**
 * The tabular data the dashboard receives: named columns of cells, and the
 * JavaScript number semantics the statistics code applies to those cells.
 *
 * A number is modelled as `Option<real>`: `Some(x)` is a finite value and
 * `None` is NaN (or the non-finite quotient of a division by zero).
 */
module Frames {
  import opened Wrappers

  /** One entry of a column: a number, NaN, or null. */
  datatype Cell = Num(v: real) | NaN | Null

  /** A data frame: column name to the column's values, row by row. */
  type Frame = map<string, seq<Cell>>

  /** The one failure of the core: a column it dereferences is absent. */
  datatype Error = MissingColumn(key: string)

  /**
   * `values[i]`. Reading past the end gives `undefined`, which every caller
   * in the core treats exactly like NaN, so it is modelled as NaN.
   */
  function Read(col: seq<Cell>, i: nat): Cell {
    if i < |col| then col[i] else NaN
  }

  /** The column, or the empty column when the frame does not have it. */
  function ColumnOr(frame: Frame, key: string): seq<Cell> {
    if key in frame then frame[key] else []
  }

  /** JavaScript's numeric coercion of a cell: null becomes 0. */
  function ToNumber(c: Cell): Option<real> {
    match c
    case Num(x) => Some(x)
    case Null => Some(0.0)
    case NaN => None
  }

  /** `isNaN(c)`: true for NaN only; `isNaN(null)` is false. */
  predicate IsNaN(c: Cell) {
    ToNumber(c).None?
  }

  /** `a + b`, where NaN absorbs. */
  function Add(a: Option<real>, b: Option<real>): Option<real> {
    if a.Some? && b.Some? then Some(a.value + b.value) else None
  }

  /** `a * b`, where NaN absorbs. */
  function Mul(a: Option<real>, b: Option<real>): Option<real> {
    if a.Some? && b.Some? then Some(a.value * b.value) else None
  }

  /** Multiplying two numbers gives their product. */
  lemma MulOfNumbers(a: real, b: real)
    ensures Mul(Some(a), Some(b)) == Some(a * b)
  {
    assert Mul(Some(a), Some(b)).value == a * b;
  }

  /** `a / b`; dividing by zero gives a non-finite value (NaN or an infinity). */
  function Div(a: Option<real>, b: Option<real>): Option<real> {
    if a.Some? && b.Some? && b.value != 0.0 then Some(a.value / b.value) else None
  }

  /** The numeric value of row `i`, with NaN read as 0 (used only where no NaN occurs). */
  function CellNumber(col: seq<Cell>, i: nat): real {
    ToNumber(Read(col, i)).GetOr(0.0)
  }

  /** The first `n` rows of the column, as reals. */
  function Numbers(col: seq<Cell>, n: nat): (r: seq<real>)
    ensures |r| == n
  {
    seq(n, i requires 0 <= i < n => CellNumber(col, i))
  }

  /** None of the first `n` rows of the column is NaN (or past its end). */
  predicate Numeric(col: seq<Cell>, n: nat) {
    forall i :: 0 <= i < n ==> ToNumber(Read(col, i)).Some?
  }

  /**
   * The index of the first key in `keys[from..]` that is not a column of the
   * frame: the column whose dereference throws first.
   */
  function MissingFrom(frame: Frame, keys: seq<string>, from: nat): (r: Option<nat>)
    requires from <= |keys|
    decreases |keys| - from
    ensures r.None? <==> forall i :: from <= i < |keys| ==> keys[i] in frame
    ensures r.Some? ==> from <= r.value < |keys| && keys[r.value] !in frame
    ensures r.Some? ==> forall i :: from <= i < r.value ==> keys[i] in frame
  {
    if from == |keys| then None
    else if keys[from] !in frame then Some(from)
    else MissingFrom(frame, keys, from + 1)
  }

  /** The first key of `keys` that is not a column of the frame, if any. */
  function FirstMissing(frame: Frame, keys: seq<string>): (r: Option<string>)
    ensures r.None? <==> forall i :: 0 <= i < |keys| ==> keys[i] in frame
    ensures r.Some? ==> r.value in keys && r.value !in frame
  {
    var m := MissingFrom(frame, keys, 0);
    if m.Some? then Some(keys[m.value]) else None
  }
}
