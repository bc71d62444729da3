/** The Curitibanos menu, read from a PDF table: a `DD/MM` date at the top of
    each day column and the dishes below it, the first page for lunch and the
    second for dinner. */
module Curitibanos {
  import opened Common
  import opened Text
  import opened Grid
  import opened DateText

  /** `data.map((d) => d.map(({ text }) => text.replace(/\r/g, ' ')))`. */
  function CleanRows(rows: Page): (r: Page)
    ensures |r| == |rows|
    ensures forall k :: 0 <= k < |rows| ==> |r[k]| == |rows[k]|
    ensures forall k, i :: 0 <= k < |rows| && 0 <= i < |rows[k]| ==> '\r' !in r[k][i]
    ensures forall k, i :: 0 <= k < |rows| && 0 <= i < |rows[k]| ==> r[k][i] == ReplaceCarriageReturns(rows[k][i])
  {
    seq(|rows|, k requires 0 <= k < |rows| =>
      seq(|rows[k]|, i requires 0 <= i < |rows[k]| => ReplaceCarriageReturns(rows[k][i])))
  }

  /** The callback of `dataColumns.map(...)`: `None` (the source's `null`) for a
      column whose first cell holds no `DD/MM`; otherwise the date in `year` and
      every cell below, blank or not. */
  function CuritibanosColumn(column: Column, year: int): (r: Option<MenuDay>)
    requires column != []
    ensures r.None? <==> forall j :: !MatchesAt(column[0], j, "##/##")
    ensures r.Some? ==> Some(r.value.date) == DayMonthDate(column[0], year)
    ensures r.Some? ==> r.value.plates == column[1..]
  {
    match DayMonthDate(column[0], year)
    case None => None
    case Some(date) => Some(MenuDay(date, column[1..]))
  }

  /** No cell of the cleaned page holds a carriage return, padding included. */
  lemma CleanColumns(rows: Page)
    requires rows != []
    ensures forall i, k :: 0 <= i < |Columns(CleanRows(rows)).value| && 0 <= k < |rows| ==>
      '\r' !in Columns(CleanRows(rows)).value[i][k]
  {
    var clean := CleanRows(rows);
    var columns := Columns(clean).value;
    forall i, k | 0 <= i < |columns| && 0 <= k < |rows| ensures '\r' !in columns[i][k] {
      if i < |clean[k]| {
        assert columns[i][k] == clean[k][i];
      } else {
        assert columns[i][k] == "";
      }
    }
  }

  /** The column callback in `year`; every column of a page with rows has the
      first cell it reads. */
  function ColumnReader(year: int): Column -> Option<MenuDay> {
    column => if column != [] then CuritibanosColumn(column, year) else None
  }

  /** The callback of `pages.map(...)` for one page. A page without rows has no
      first row to measure, and the source raises. */
  function CuritibanosPage(rows: Page, year: int): (r: Result<seq<MenuDay>>)
    ensures r.Failed? <==> rows == []
    ensures r.Ok? ==> r.value == Present(Columns(CleanRows(rows)).value, ColumnReader(year))
    ensures r.Ok? ==> |r.value| <= |rows[0]|
    ensures r.Ok? ==> forall d :: d in r.value ==> |d.plates| == |rows| - 1
    ensures r.Ok? ==> forall d :: d in r.value ==> forall x :: x in d.plates ==> '\r' !in x
  {
    var clean := CleanRows(rows);
    match Columns(clean)
    case None => Failed(NoRows)
    case Some(columns) =>
      // every column has one cell per row, so none is empty
      var days := Present(columns, ColumnReader(year));
      CleanColumns(rows);
      assert forall d :: d in days ==> |d.plates| == |rows| - 1 && forall x :: x in d.plates ==> '\r' !in x by {
        forall d | d in days ensures |d.plates| == |rows| - 1 && forall x :: x in d.plates ==> '\r' !in x {
          var i :| 0 <= i < |columns| && CuritibanosColumn(columns[i], year) == Some(d);
          forall x | x in d.plates ensures '\r' !in x {
            var k :| 1 <= k < |columns[i]| && columns[i][k] == x;
          }
        }
      }
      Ok(days)
  }

  /** `const [menu, menuDinner]`: the days of the first page and of the second,
      absent where the document has fewer pages. */
  datatype Meals = Meals(lunch: Option<seq<MenuDay>>, dinner: Option<seq<MenuDay>>)

  /** `parseCuritibanos`: every page is parsed (a page without rows raises even
      past the second); the first two give lunch and dinner. */
  function CuritibanosMenu(pages: seq<Page>, year: int): (r: Result<Meals>)
    ensures r.Failed? <==> exists k :: 0 <= k < |pages| && pages[k] == []
    ensures r.Ok? ==> (r.value.lunch.Some? <==> |pages| >= 1) && (r.value.dinner.Some? <==> |pages| >= 2)
    ensures r.Ok? && |pages| >= 1 ==> CuritibanosPage(pages[0], year) == Ok(r.value.lunch.value)
    ensures r.Ok? && |pages| >= 2 ==> CuritibanosPage(pages[1], year) == Ok(r.value.dinner.value)
  {
    match MapResult(pages, (page: Page) => CuritibanosPage(page, year))
    case Failed(c) => Failed(c)
    case Ok(menus) =>
      Ok(Meals(if |menus| >= 1 then Some(menus[0]) else None, if |menus| >= 2 then Some(menus[1]) else None))
  }
}
