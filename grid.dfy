/** The grid of cell texts that the table extractor produces for one page, its
    projection into columns (four of the five menus lay out a day per column),
    and the menu day every parser builds from it. */
module Grid {
  import opened Common
  import opened Calendar

  type Row = seq<string>
  /** The rows of one extracted page. */
  type Page = seq<Row>
  type Column = seq<string>

  /** One day of a menu: `{ date, plates }`. */
  datatype MenuDay = MenuDay(date: Date, plates: seq<string>)

  /** The text at row `r`, column `i`; a row shorter than the first is read as
      padded with blank cells. */
  function CellAt(rows: Page, r: nat, i: nat): string
    requires r < |rows|
  {
    if i < |rows[r]| then rows[r][i] else ""
  }

  /** `Array(dataRows[0].length).fill().map((_, i) => dataRows.map((r) => r[i]))`.
      A page without rows has no first row to measure: the source raises, written `None`. */
  function Columns(rows: Page): (r: Option<seq<Column>>)
    ensures r.None? <==> rows == []
    ensures r.Some? ==> |r.value| == |rows[0]|
    ensures r.Some? ==> forall i :: 0 <= i < |r.value| ==> |r.value[i]| == |rows|
    ensures r.Some? ==> forall i, k :: 0 <= i < |r.value| && 0 <= k < |rows| && i < |rows[k]| ==> r.value[i][k] == rows[k][i]
    ensures r.Some? ==> forall i, k :: 0 <= i < |r.value| && 0 <= k < |rows| && |rows[k]| <= i ==> r.value[i][k] == ""
  {
    if rows == [] then None
    else Some(seq(|rows[0]|, i requires 0 <= i => seq(|rows|, k requires 0 <= k < |rows| => CellAt(rows, k, i))))
  }

  /** `dataColumns.slice(1)`: the columns after the first, which holds the row labels. */
  function DayColumns(columns: seq<Column>): (r: seq<Column>)
    ensures |r| == if columns == [] then 0 else |columns| - 1
    ensures forall i :: 1 <= i < |columns| ==> r[i - 1] == columns[i]
  {
    if columns == [] then [] else columns[1..]
  }

  /** Every row has as many cells as the first. */
  predicate IsRectangular(rows: Page) {
    forall k :: 0 <= k < |rows| ==> |rows[k]| == |rows[0]|
  }

  /** On a rectangular page with at least one cell, projecting the columns of
      the columns gives the rows back: the projection is a transposition. */
  lemma ColumnsRoundTrip(rows: Page)
    requires rows != [] && rows[0] != [] && IsRectangular(rows)
    ensures Columns(rows).Some? && Columns(Columns(rows).value) == Some(rows)
  {
    var cols := Columns(rows).value;
    var back := Columns(cols).value;
    assert |back| == |rows|;
    forall k | 0 <= k < |rows| ensures back[k] == rows[k] {
      assert |back[k]| == |cols| == |rows[k]|;
      forall i | 0 <= i < |rows[k]| ensures back[k][i] == rows[k][i] {
        assert back[k][i] == cols[i][k];
      }
    }
    assert back == rows;
  }
}
