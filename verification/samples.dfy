/**
 * Reduction of one point's region table to the two mean index values.
 * A region table is a header row followed by one data row per
 * (pixel, image); the reduction reads the cells at positions 4 and 5 of
 * every data row, drops the null ones, and averages what is left.
 */
module Samples {

  import opened Wrappers

  /** One table cell: a number, or null where the service had no value. */
  type Cell = Option<real>

  type Table = seq<seq<Cell>>

  /** Positions of the two index values inside a data row, read as written. */
  const NdviColumn: nat := 4
  const NdwiColumn: nat := 5

  /** Everything after the header row; an empty table has no data rows. */
  function DataRows(t: Table): Table
  {
    if |t| == 0 then [] else t[1..]
  }

  /**
   * The cell at position `col` of every row, in row order; `None` when some
   * row is too short to have that position (indexing past the end aborts).
   */
  function Column(rows: Table, col: nat): (r: Option<seq<Cell>>)
    ensures r.None? <==> exists i :: 0 <= i < |rows| && |rows[i]| <= col
    ensures r.Some? ==> |r.value| == |rows|
    ensures r.Some? ==> forall i :: 0 <= i < |rows| ==> |rows[i]| > col && r.value[i] == rows[i][col]
  {
    if |rows| == 0 then Some([])
    else if |rows[0]| <= col then None
    else
      match Column(rows[1..], col)
      case None => None
      case Some(rest) => Some([rows[0][col]] + rest)
  }

  /** The non-null cells, in their original order. */
  function NonNull(cells: seq<Cell>): (r: seq<real>)
    ensures |r| <= |cells|
    ensures forall x :: x in r <==> Some(x) in cells
  {
    if |cells| == 0 then []
    else
      match cells[0]
      case None => NonNull(cells[1..])
      case Some(x) => [x] + NonNull(cells[1..])
  }

  /** Null filtering distributes over concatenation, so it keeps order. */
  lemma {:induction false} NonNullAppend(a: seq<Cell>, b: seq<Cell>)
    ensures NonNull(a + b) == NonNull(a) + NonNull(b)
    decreases |a|
  {
    if |a| == 0 {
      assert a + b == b;
    } else {
      assert (a + b)[0] == a[0];
      assert (a + b)[1..] == a[1..] + b;
      NonNullAppend(a[1..], b);
    }
  }

  /** With no nulls present, filtering keeps every value in place. */
  lemma {:induction false} NonNullWithoutNulls(cells: seq<Cell>)
    requires forall i :: 0 <= i < |cells| ==> cells[i].Some?
    ensures |NonNull(cells)| == |cells|
    ensures forall i :: 0 <= i < |cells| ==> NonNull(cells)[i] == cells[i].value
    decreases |cells|
  {
    if |cells| > 0 {
      NonNullWithoutNulls(cells[1..]);
    }
  }

  /** Filtering leaves nothing exactly when every cell is null. */
  lemma NonNullEmpty(cells: seq<Cell>)
    ensures NonNull(cells) == [] <==> forall i :: 0 <= i < |cells| ==> cells[i].None?
  {
    if NonNull(cells) != [] {
      assert NonNull(cells)[0] in NonNull(cells);
    }
    if exists i :: 0 <= i < |cells| && cells[i].Some? {
      var i :| 0 <= i < |cells| && cells[i].Some?;
      assert cells[i].value in NonNull(cells);
    }
  }

  /** The left-to-right sum, starting from zero. */
  function Sum(xs: seq<real>): real
  {
    if |xs| == 0 then 0.0 else xs[0] + Sum(xs[1..])
  }

  /** The arithmetic mean; undefined for an empty list. */
  function Mean(xs: seq<real>): (m: Option<real>)
    ensures m.None? <==> |xs| == 0
    ensures m.Some? ==> m.value * (|xs| as real) == Sum(xs)
  {
    if |xs| == 0 then None else Some(Sum(xs) / (|xs| as real))
  }

  lemma {:induction false} SumBounds(xs: seq<real>, lo: real, hi: real)
    requires forall i :: 0 <= i < |xs| ==> lo <= xs[i] <= hi
    ensures lo * (|xs| as real) <= Sum(xs) <= hi * (|xs| as real)
    decreases |xs|
  {
    if |xs| > 0 {
      SumBounds(xs[1..], lo, hi);
      assert lo * (|xs| as real) == lo + lo * ((|xs| - 1) as real);
      assert hi * (|xs| as real) == hi + hi * ((|xs| - 1) as real);
    }
  }

  /** A mean lies between the smallest and the largest of its samples. */
  lemma MeanWithin(xs: seq<real>, lo: real, hi: real)
    requires |xs| > 0
    requires forall i :: 0 <= i < |xs| ==> lo <= xs[i] <= hi
    ensures lo <= Mean(xs).value <= hi
  {
    SumBounds(xs, lo, hi);
    var n := |xs| as real;
    var m := Mean(xs).value;
    assert m * n == Sum(xs);
    assert (m - lo) * n >= 0.0;
    assert (hi - m) * n >= 0.0;
  }

  /**
   * The mean of one band over a table: the data rows' cells at `col`, nulls
   * dropped. Fails with the column when a data row is too short for it;
   * `None` when every cell is null or there are no data rows.
   */
  function BandMean(t: Table, col: nat): (r: Result<Option<real>, nat>)
    ensures r.Failure? <==> exists i :: 1 <= i < |t| && |t[i]| <= col
    ensures r.Failure? ==> r.error == col
    ensures r.Success? ==> (r.value.None? <==> forall i :: 1 <= i < |t| ==> t[i][col].None?)
  {
    match Column(DataRows(t), col)
    case None =>
      assert exists i :: 0 <= i < |DataRows(t)| && |DataRows(t)[i]| <= col;
      Failure(col)
    case Some(cells) =>
      assert forall i :: 1 <= i < |t| ==> cells[i - 1] == t[i][col];
      NonNullEmpty(cells);
      Success(Mean(NonNull(cells)))
  }

  /**
   * Given the data rows' cells at `col` one by one (`cells[i]` is data row
   * `i + 1`'s cell), the band mean is the mean of their non-null values:
   * their sum divided by their count, and undefined when none is left.
   */
  lemma BandMeanValue(t: Table, col: nat, cells: seq<Cell>)
    requires |cells| == |t| - 1
    requires forall i :: 0 <= i < |cells| ==> |t[i + 1]| > col && cells[i] == t[i + 1][col]
    ensures BandMean(t, col) == Success(Mean(NonNull(cells)))
  {
    var rows := DataRows(t);
    forall i | 0 <= i < |rows|
      ensures |rows[i]| > col && rows[i][col] == cells[i]
    {
      var c := cells[i];
      assert rows[i] == t[i + 1] && c == t[i + 1][col];
    }
    var c := Column(rows, col);
    assert c.Some?;
    assert c.value == cells;
  }

  /** Filtering the example column keeps its three values in order. */
  lemma NullDropped()
    ensures NonNull([Some(0.2), Some(0.4), None, Some(0.6)]) == [0.2, 0.4, 0.6]
  {
    var cells: seq<Cell> := [Some(0.2), Some(0.4), None, Some(0.6)];
    NonNullAppend([Some(0.2), Some(0.4)], [None, Some(0.6)]);
    assert cells == [Some(0.2), Some(0.4)] + [None, Some(0.6)];
    NonNullWithoutNulls([Some(0.2), Some(0.4)]);
    assert NonNull([Some(0.2), Some(0.4)]) == [0.2, 0.4];
    assert NonNull([None, Some(0.6)]) == NonNull([Some(0.6)]) == [0.6];
  }

  /** Nulls are skipped, not counted: the mean of 0.2, 0.4, null, 0.6 is 0.4. */
  lemma NullsAreSkipped()
    ensures Mean(NonNull([Some(0.2), Some(0.4), None, Some(0.6)])) == Some(0.4)
  {
    NullDropped();
    var xs: seq<real> := [0.2, 0.4, 0.6];
    assert xs[1..] == [0.4, 0.6] && xs[1..][1..] == [0.6] && xs[1..][1..][1..] == [];
    assert Sum([0.6]) == 0.6;
    assert Sum([0.4, 0.6]) == 1.0;
    assert Sum(xs) == 1.2;
    assert Mean(xs).value * 3.0 == 1.2;
  }
}
