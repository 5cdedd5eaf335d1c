/**
 * The tabular dataset as the validator sees it: named columns of cells that
 * may be missing, a row count, and the provenance the loader attaches.
 */
module Frames {
  import opened Wrappers

  /** A cell of an ordered value type; None is a missing value (NaN/None). */
  type Cell = Option<int>

  /** A column with its storage type tag (an opaque string such as "float64"). */
  datatype Column = Column(dtype: string, cells: seq<Cell>)

  /** The provenance attributes the loader attaches: `source_file` and `row_count`. */
  datatype Attrs = Attrs(sourceFile: Option<string>, rowCount: Option<int>)

  datatype DataFrame = DataFrame(columns: map<string, Column>, rows: nat, attrs: Attrs)

  /** Every column has one cell per row. */
  predicate WellFormed(df: DataFrame) {
    forall name :: name in df.columns ==> |df.columns[name].cells| == df.rows
  }

  /** The number of missing cells. */
  function NullCount(cells: seq<Cell>): (k: nat)
    ensures k <= |cells|
    ensures k == 0 <==> forall i :: 0 <= i < |cells| ==> cells[i].Some?
    ensures k == |cells| <==> forall i :: 0 <= i < |cells| ==> cells[i].None?
  {
    if cells == [] then 0
    else (if cells[0].None? then 1 else 0) + NullCount(cells[1..])
  }

  /**
   * The fraction of missing cells (`isna().mean()`). An empty column has no
   * defined fraction; it is taken as 0 here.
   */
  function NullFraction(cells: seq<Cell>): (r: real)
    ensures 0.0 <= r <= 1.0
    ensures r == 0.0 <==> forall i :: 0 <= i < |cells| ==> cells[i].Some?
    ensures r == 1.0 <==> |cells| > 0 && forall i :: 0 <= i < |cells| ==> cells[i].None?
  {
    if |cells| == 0 then 0.0
    else
      var k := NullCount(cells);
      FractionBounds(k as real, |cells| as real);
      (k as real) / (|cells| as real)
  }

  /** The missing cells counted are exactly the occurrences of a missing value. */
  lemma {:induction false} NullCountIsMultiplicity(cells: seq<Cell>)
    ensures NullCount(cells) == multiset(cells)[None]
  {
    if cells != [] {
      assert cells == [cells[0]] + cells[1..];
      NullCountIsMultiplicity(cells[1..]);
    }
  }

  /** The null rate of a non-empty column is its number of missing cells over its length (`isna().mean()`). */
  lemma NullFractionIsMean(cells: seq<Cell>)
    requires |cells| > 0
    ensures NullFraction(cells) == (multiset(cells)[None] as real) / (|cells| as real)
  {
    NullCountIsMultiplicity(cells);
  }

  /** A part over a positive whole lies in [0,1]; it is 0 iff the part is, 1 iff the part is the whole. */
  lemma FractionBounds(part: real, whole: real)
    requires 0.0 <= part <= whole && 0.0 < whole
    ensures 0.0 <= part / whole <= 1.0
    ensures part / whole == 0.0 <==> part == 0.0
    ensures part / whole == 1.0 <==> part == whole
  {
    var q := part / whole;
    assert q * whole == part;
    if q == 0.0 {
      assert part == 0.0 * whole;
    }
    if q == 1.0 {
      assert part == 1.0 * whole;
    }
  }

  /** The smallest present value, None when every cell is missing (`min()` skips NaN). */
  function ColumnMin(cells: seq<Cell>): (m: Option<int>)
    ensures m.None? <==> forall i :: 0 <= i < |cells| ==> cells[i].None?
    ensures m.Some? ==> Some(m.value) in cells
    ensures m.Some? ==> forall i :: 0 <= i < |cells| && cells[i].Some? ==> m.value <= cells[i].value
  {
    if cells == [] then None
    else
      var rest := ColumnMin(cells[1..]);
      match cells[0]
      case None => rest
      case Some(v) => if rest.Some? && rest.value < v then rest else Some(v)
  }

  /** The largest present value, None when every cell is missing (`max()` skips NaN). */
  function ColumnMax(cells: seq<Cell>): (m: Option<int>)
    ensures m.None? <==> forall i :: 0 <= i < |cells| ==> cells[i].None?
    ensures m.Some? ==> Some(m.value) in cells
    ensures m.Some? ==> forall i :: 0 <= i < |cells| && cells[i].Some? ==> cells[i].value <= m.value
  {
    if cells == [] then None
    else
      var rest := ColumnMax(cells[1..]);
      match cells[0]
      case None => rest
      case Some(v) => if rest.Some? && rest.value > v then rest else Some(v)
  }

  /**
   * `is_unique`: no two cells are equal, where two missing cells count as
   * equal (pandas counts NaN as one distinct value).
   */
  function AllDistinct(cells: seq<Cell>): (b: bool)
    ensures b <==> forall i, j :: 0 <= i < j < |cells| ==> cells[i] != cells[j]
  {
    if cells == [] then true
    else
      var b := cells[0] !in cells[1..] && AllDistinct(cells[1..]);
      assert forall j :: 0 < j < |cells| ==> cells[j] == cells[1..][j - 1];
      b
  }
}
