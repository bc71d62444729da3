/** The Joinville menu, read from a PDF table: one day per column after the
    first, a `DD/MM/YYYY` date in the second row and the dishes from the third
    row down. Days without a date or without dishes are dropped. */
module Joinville {
  import opened Common
  import opened Text
  import opened Grid
  import opened DateText

  /** The callback of `dataColumns.slice(1).map(...)` followed by the final
      filter: `None` for a column whose second cell holds no `DD/MM/YYYY` or
      whose cells below hold no dish. */
  function JoinvilleColumn(column: Column): (r: Option<MenuDay>)
    requires |column| >= 2
    ensures r.None? <==> (forall j :: !MatchesAt(column[1], j, "##/##/####")) || forall k :: 2 <= k < |column| ==> column[k] == ""
    ensures r.Some? ==> Some(r.value.date) == SlashedDate(column[1])
    ensures r.Some? ==> r.value.plates != [] && forall x :: x in r.value.plates <==> x in column[2..] && x != ""
  {
    var plates := Keep(column[2..], IsFilled);
    assert plates == [] <==> forall k :: 2 <= k < |column| ==> column[k] == "" by {
      if plates == [] {
        forall k | 2 <= k < |column| ensures column[k] == "" {
          assert column[k] in column[2..];
        }
      } else {
        assert plates[0] in column[2..];
      }
    }
    match SlashedDate(column[1])
    case None => None
    case Some(date) => if plates == [] then None else Some(MenuDay(date, plates))
  }

  /** The column callback on a column of a page: every column of a page with
      two rows or more has the second cell it reads. */
  function DayOfColumn(column: Column): Option<MenuDay> {
    if |column| >= 2 then JoinvilleColumn(column) else None
  }

  /** The callback of `pages.flatMap(...)` for one page. A page without rows has
      no first row to measure, and a page of one row has no `column[1]` to
      match; either raises. */
  function JoinvillePage(rows: Page): (r: Result<seq<MenuDay>>)
    ensures r.Failed? <==> rows == [] || (|rows| < 2 && |rows[0]| >= 2)
    ensures r.Ok? ==> forall d :: d in r.value ==> d.plates != [] && forall x :: x in d.plates ==> x != ""
    ensures r.Ok? ==> forall d :: d in r.value <==>
      exists i :: 0 <= i < |rows[0]| - 1 && JoinvilleColumn(DayColumns(Columns(rows).value)[i]) == Some(d)
    ensures r.Ok? ==> r.value == Present(DayColumns(Columns(rows).value), DayOfColumn)
  {
    match Columns(rows)
    case None => Failed(NoRows)
    case Some(columns) =>
      var days := DayColumns(columns);
      if days != [] && |rows| < 2 then Failed(NoCell)
      // every column has one cell per row, so the guard holds for each of them
      else Ok(Present(days, DayOfColumn))
  }

  /** `parseJoinvile`: the days of every page, page after page. */
  function JoinvilleMenu(pages: seq<Page>): (r: Result<seq<MenuDay>>)
    ensures r.Failed? <==> exists k :: 0 <= k < |pages| && (pages[k] == [] || (|pages[k]| < 2 && |pages[k][0]| >= 2))
    ensures r.Ok? ==>
      exists parts :: |parts| == |pages| && r.value == Flatten(parts) &&
        forall k :: 0 <= k < |pages| ==> JoinvillePage(pages[k]) == Ok(parts[k])
    ensures r.Ok? ==> forall d :: d in r.value ==> d.plates != [] && forall x :: x in d.plates ==> x != ""
  {
    match MapResult(pages, JoinvillePage)
    case Failed(c) => Failed(c)
    case Ok(days) =>
      assert forall d :: d in Flatten(days) ==> d.plates != [] && forall x :: x in d.plates ==> x != "" by {
        forall d | d in Flatten(days) ensures d.plates != [] && forall x :: x in d.plates ==> x != "" {
          FlattenMember(days, d);
          var k :| 0 <= k < |days| && d in days[k];
          assert JoinvillePage(pages[k]) == Ok(days[k]);
        }
      }
      Ok(Flatten(days))
  }
}
