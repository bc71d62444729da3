/** The Araranguá menu, read from a PDF table: one day per column after the
    first, a `DD-MM-YY` date somewhere in the column, the dishes below the first
    blank cell that follows it. */
module Ararangua {
  import opened Common
  import opened Text
  import opened Grid
  import opened Calendar
  import opened DateText
  import opened Merger

  /** `/\d{2}-\d{2}-\d{2}/.test(el)`. */
  predicate HasShortDate(cell: string) {
    FindTemplate(cell, "##-##-##").Some?
  }

  /** `column.findIndex(...)`: the first row holding a date. */
  function DayRow(column: Column): Option<nat> {
    IndexWhere(column, HasShortDate)
  }

  /** `column.slice(dayIndex + 1).findIndex((el) => el == '') + dayIndex + 2`:
      one row past the first blank cell below the date row; where no blank cell
      follows, `findIndex` gives -1 and the dishes start right below the date row. */
  function DishStart(column: Column, dayRow: nat): (r: nat)
    requires dayRow < |column|
    ensures dayRow < r <= |column|
    ensures r == dayRow + 1 <==> forall k :: dayRow < k < |column| ==> column[k] != ""
    ensures r > dayRow + 1 ==> column[r - 1] == "" && forall k :: dayRow < k < r - 1 ==> column[k] != ""
  {
    var below := column[dayRow + 1..];
    assert forall k :: dayRow < k < |column| ==> column[k] == below[k - dayRow - 1];
    match IndexWhere(below, IsBlank)
    case None => dayRow + 1
    case Some(k) => dayRow + k + 2
  }

  /** The callback of `dataColumns.slice(1).map(...)`: `None` (the source's
      `null`) for a column without a date; otherwise the date and the merged dishes. */
  function AraranguaColumn(column: Column): (r: Option<MenuDay>)
    ensures r.None? <==> forall k :: 0 <= k < |column| ==> !HasShortDate(column[k])
    ensures r.Some? ==> DayRow(column).Some?
    ensures r.Some? ==> r.value.date == ShortDate(column[DayRow(column).value])
    ensures r.Some? ==> r.value.plates == Merge(column[DishStart(column, DayRow(column).value)..])
    ensures r.Some? ==> forall x :: x in r.value.plates ==> Classify(x) == NewEntry
  {
    match DayRow(column)
    case None => None
    case Some(row) =>
      var plates := Merge(column[DishStart(column, row)..]);
      Some(MenuDay(ShortDate(column[row]), plates))
  }

  /** The callback of `pages.flatMap(...)` for one page, with the final
      `filter` applied to it: the days of the dated columns, the first column
      excepted. A page without rows has no first row to measure, and the
      source raises. */
  function AraranguaPage(rows: Page): (r: Result<seq<MenuDay>>)
    ensures r.Failed? <==> rows == []
    ensures r.Ok? ==> |r.value| < |rows[0]| || |r.value| == 0
    ensures r.Ok? ==> forall d :: d in r.value <==>
      exists i :: 0 <= i < |rows[0]| - 1 && AraranguaColumn(DayColumns(Columns(rows).value)[i]) == Some(d)
    ensures r.Ok? ==> r.value == Present(DayColumns(Columns(rows).value), AraranguaColumn)
  {
    match Columns(rows)
    case None => Failed(NoRows)
    case Some(columns) => Ok(Present(DayColumns(columns), AraranguaColumn))
  }

  /** `pages.flatMap(...).filter((e) => e)`: the days of every page, page after page. */
  function AraranguaMenu(pages: seq<Page>): (r: Result<seq<MenuDay>>)
    ensures r.Failed? <==> exists k :: 0 <= k < |pages| && pages[k] == []
    ensures r.Ok? ==>
      exists parts :: |parts| == |pages| && r.value == Flatten(parts) &&
        forall k :: 0 <= k < |pages| ==> AraranguaPage(pages[k]) == Ok(parts[k])
    ensures r.Ok? ==> forall d :: d in r.value ==> exists k :: 0 <= k < |pages| && d in AraranguaPage(pages[k]).value
  {
    match MapResult(pages, AraranguaPage)
    case Failed(c) => Failed(c)
    case Ok(days) =>
      forall d | d in Flatten(days) ensures exists k :: 0 <= k < |pages| && d in AraranguaPage(pages[k]).value {
        FlattenMember(days, d);
      }
      Ok(Flatten(days))
  }

  /** The date cell of the examples below is read as 5 June 2023. */
  lemma ExampleDate()
    ensures HasShortDate("05-06-23") && ShortDate("05-06-23") == CivilDate(2023, 6, 5)
  {
    assert "" + ShortText(5, 6, 23) == "05-06-23";
    ShortDateRoundTrip("", 5, 6, 23);
    assert MomentTwoDigitYear(23) == 2023;
  }

  /** A typical column: a weekday, the date, a blank row, then the dishes with
      a wrapped line. */
  lemma ColumnExample()
    ensures AraranguaColumn(["Segunda", "05-06-23", "", "Arroz", "integral", "Feijão"])
      == Some(MenuDay(CivilDate(2023, 6, 5), ["Arroz integral", "Feijão"]))
  {
    var column := ["Segunda", "05-06-23", "", "Arroz", "integral", "Feijão"];
    assert DayRow(column) == Some(1) by {
      ExampleDate();
      assert !HasShortDate("Segunda");
    }
    assert DishStart(column, 1) == 3;
    assert Merge(column[3..]) == ["Arroz integral", "Feijão"] by {
      assert column[3..] == ["Arroz", "integral", "Feijão"];
      MergeJoinsWrappedLine();
    }
    ExampleDate();
  }

  /** Without a blank row below the date, the dishes start on the next row. */
  lemma NoBlankExample()
    ensures AraranguaColumn(["05-06-23", "Arroz", "Feijão"])
      == Some(MenuDay(CivilDate(2023, 6, 5), ["Arroz", "Feijão"]))
  {
    var column := ["05-06-23", "Arroz", "Feijão"];
    assert DayRow(column) == Some(0) by {
      ExampleDate();
    }
    assert DishStart(column, 0) == 1 by {
      assert column[1] != "" && column[2] != "";
    }
    assert Merge(column[1..]) == ["Arroz", "Feijão"] by {
      assert column[1..] == ["Arroz", "Feijão"];
      ExampleKinds();
      MergeOfEntries(["Arroz", "Feijão"]);
    }
    ExampleDate();
  }
}
