/** The CCA menu, read from a PDF in two passes: a title strip per page that
    names the last day of the week, and a body table with one day per column,
    the last column being that last day. The dishes of a day start below the
    first blank cell of its column; category labels are dropped before the
    continuation merger runs. */
module Cca {
  import opened Common
  import opened Text
  import opened Grid
  import opened Calendar
  import opened Merger
  import opened CcaHeader

  // ----- end dates from the title pages -----

  /** The callback of `titlePages.flatMap(...)` for one page: the end date its
      first cell names, or nothing where the title does not match. A page
      without a first cell makes `data[0][0].text` raise. */
  function TitleDates(page: Page): (r: Result<seq<Date>>)
    ensures r.Failed? <==> page == [] || page[0] == []
    ensures r.Ok? ==> |r.value| <= 1
    ensures r.Ok? ==> (r.value == [] <==> forall i, a, d :: !HeaderAt(page[0][0], i, a, d))
    ensures r.Ok? && r.value != [] ==> Some(r.value[0]) == EndDateOf(page[0][0])
  {
    if page == [] || page[0] == [] then Failed(NoCell)
    else match EndDateOf(page[0][0])
      case None => Ok([])
      case Some(d) => Ok([d])
  }

  /** `endDates`: the end dates of the title pages that match, in page order. */
  function EndDates(titlePages: seq<Page>): (r: Result<seq<Date>>)
    ensures r.Failed? <==> exists k :: 0 <= k < |titlePages| && (titlePages[k] == [] || titlePages[k][0] == [])
    ensures r.Ok? ==>
      exists parts :: |parts| == |titlePages| && r.value == Flatten(parts) &&
        forall k :: 0 <= k < |titlePages| ==> TitleDates(titlePages[k]) == Ok(parts[k])
  {
    match MapResult(titlePages, TitleDates)
    case Failed(c) => Failed(c)
    case Ok(dates) => Ok(Flatten(dates))
  }

  /** A title page that does not match contributes no end date, so the end
      dates of the pages after it move up by one page. */
  lemma EndDatesSkipUnmatched(titlePages: seq<Page>)
    requires titlePages != [] && titlePages[0] != [] && titlePages[0][0] != []
    requires forall i, a, d :: !HeaderAt(titlePages[0][0][0], i, a, d)
    ensures EndDates(titlePages) == EndDates(titlePages[1..])
  {
    assert TitleDates(titlePages[0]) == Ok([]);
    match MapResult(titlePages[1..], TitleDates)
    case Failed(c) =>
      assert MapResult(titlePages, TitleDates) == Failed(c);
    case Ok(later) =>
      var none: seq<Date> := [];
      assert MapResult(titlePages, TitleDates) == Ok([none] + later);
      FlattenCons(none, later);
      assert none + Flatten(later) == Flatten(later);
  }

  /** Where every title page matches, there is one end date per page, in page
      order, and the body page at index `k` is dated by the end date that title
      page `k` names. */
  lemma EndDatesAligned(titlePages: seq<Page>, today: int)
    requires forall k :: 0 <= k < |titlePages| ==> titlePages[k] != [] && titlePages[k][0] != []
    requires forall k :: 0 <= k < |titlePages| ==> EndDateOf(titlePages[k][0][0]).Some?
    ensures EndDates(titlePages).Ok?
    ensures |EndDates(titlePages).value| == |titlePages|
    ensures forall k :: 0 <= k < |titlePages| ==> Some(EndDates(titlePages).value[k]) == EndDateOf(titlePages[k][0][0])
    ensures forall k :: 0 <= k < |titlePages| ==> Some(PageEnd(EndDates(titlePages).value, k, today)) == EndDateOf(titlePages[k][0][0])
  {
    var pieces := MapResult(titlePages, TitleDates).value;
    forall k | 0 <= k < |titlePages| ensures |pieces[k]| == 1 && Some(pieces[k][0]) == EndDateOf(titlePages[k][0][0]) {
      assert TitleDates(titlePages[k]) == Ok(pieces[k]);
    }
    FlattenSingletons(pieces);
  }

  // ----- the columns of a body page -----

  /** `column.findIndex((el) => el == '') + 1`: one row past the first blank
      cell, or the top of the column (`-1 + 1`) where there is none. */
  function BlankStart(column: Column): (r: nat)
    ensures r <= |column|
    ensures r == 0 <==> forall k :: 0 <= k < |column| ==> column[k] != ""
    ensures r > 0 ==> column[r - 1] == "" && forall k :: 0 <= k < r - 1 ==> column[k] != ""
  {
    match IndexWhere(column, IsBlank)
    case None => 0
    case Some(k) => k + 1
  }

  /** `/Saladas|Acompanhamentos|Carnes|Sobremesa/.test(i)`: the cell holds a
      category label anywhere in its text. */
  predicate HasLabel(cell: string) {
    || Contains(cell, "Saladas") || Contains(cell, "Acompanhamentos")
    || Contains(cell, "Carnes") || Contains(cell, "Sobremesa")
  }

  predicate NoLabel(cell: string) {
    !HasLabel(cell)
  }

  /** Two pieces joined by a space hold a label only where one of them does:
      no label contains a space. */
  lemma LabelAcrossSpace(a: string, b: string)
    requires NoLabel(a) && NoLabel(b)
    ensures NoLabel(a + " " + b)
  {
    ContainsAcrossSpace(a, b, "Saladas");
    ContainsAcrossSpace(a, b, "Acompanhamentos");
    ContainsAcrossSpace(a, b, "Carnes");
    ContainsAcrossSpace(a, b, "Sobremesa");
  }

  /** A slot the pass fills from cells without labels holds none. */
  lemma MergedSlotNoLabel(cells: seq<string>, j: nat)
    requires j < |cells| && NoLabel(cells[j])
    requires j + 1 < |cells| ==> NoLabel(cells[j + 1])
    ensures NoLabel(MergedSlot(cells, j))
  {
    var own := OwnPart(cells[j]);
    assert NoLabel(own) by {
      if own == "" {
        assert !Contains(own, "Saladas") && !Contains(own, "Acompanhamentos");
        assert !Contains(own, "Carnes") && !Contains(own, "Sobremesa");
      }
    }
    if j + 1 < |cells| && Classify(cells[j + 1]) == Continuation {
      LabelAcrossSpace(own, cells[j + 1]);
      assert MergedSlot(cells, j) == own + " " + cells[j + 1];
    } else {
      assert MergedSlot(cells, j) == own + "";
      assert own + "" == own;
    }
  }

  /** Merging cells without labels creates none. */
  lemma MergeKeepsNoLabel(cells: seq<string>)
    requires forall c :: c in cells ==> NoLabel(c)
    ensures forall x :: x in Merge(cells) ==> NoLabel(x)
  {
    var slots := MergedSlots(cells);
    forall x | x in Merge(cells) ensures NoLabel(x) {
      var j :| 0 <= j < |slots| && slots[j] == x;
      assert cells[j] in cells;
      assert j + 1 < |cells| ==> cells[j + 1] in cells;
      MergedSlotNoLabel(cells, j);
    }
  }

  /** Every dish of a day starts a dish and holds no label. */
  predicate IsCleanDay(day: MenuDay) {
    forall x :: x in day.plates ==> Classify(x) == NewEntry && NoLabel(x)
  }

  /** The dishes of a column: below the first blank, without the label cells,
      merged. */
  function CcaDishes(column: Column): (r: seq<string>)
    ensures forall x :: x in r ==> Classify(x) == NewEntry && NoLabel(x)
    ensures r == Merge(Keep(column[BlankStart(column)..], NoLabel))
  {
    var cells := Keep(column[BlankStart(column)..], NoLabel);
    MergeKeepsNoLabel(cells);
    Merge(cells)
  }

  /** `moment(endDate).add('days', -(dayFactor - index))` for each of the `n`
      columns, `dayFactor` being `n - 1`. */
  function ColumnDates(end: Date, n: nat): (r: seq<Date>)
    ensures |r| == n
    ensures forall i :: 0 <= i < n ==> r[i] == AddDays(end, -(n - 1 - i))
  {
    seq(n, i requires 0 <= i < n => AddDays(end, i - (n - 1)))
  }

  /** The last column is the end date and each column is the day before the
      next; an invalid end date makes every column invalid. */
  lemma ColumnDatesSpec(end: Date, n: nat)
    ensures n > 0 ==> ColumnDates(end, n)[n - 1] == end
    ensures forall i :: 0 <= i < n - 1 ==> ColumnDates(end, n)[i + 1] == AddDays(ColumnDates(end, n)[i], 1)
    ensures end.InvalidDate? ==> forall i :: 0 <= i < n ==> ColumnDates(end, n)[i] == InvalidDate
  {
    var r := ColumnDates(end, n);
    if n > 0 {
      AddDaysTwice(end, 0, 0);
      assert AddDays(end, 0) == end;
    }
    forall i | 0 <= i < n - 1 ensures r[i + 1] == AddDays(r[i], 1) {
      AddDaysTwice(end, -(n - 1 - i), 1);
    }
  }

  /** The callback of `pages.flatMap(...)` for one body page with its end date:
      one day per column, every column kept. */
  function CcaPage(rows: Page, end: Date): (r: Result<seq<MenuDay>>)
    ensures r.Failed? <==> rows == []
    ensures r.Ok? ==> |r.value| == |rows[0]|
    ensures r.Ok? ==> forall i :: 0 <= i < |r.value| ==> r.value[i].date == ColumnDates(end, |rows[0]|)[i]
    ensures r.Ok? ==> forall i :: 0 <= i < |r.value| ==> r.value[i].plates == CcaDishes(Columns(rows).value[i])
    ensures r.Ok? ==> forall d :: d in r.value ==> IsCleanDay(d)
  {
    match Columns(rows)
    case None => Failed(NoRows)
    case Some(columns) =>
      var dates := ColumnDates(end, |columns|);
      Ok(seq(|columns|, i requires 0 <= i < |columns| => MenuDay(dates[i], CcaDishes(columns[i]))))
  }

  /** `endDates[pageIndex]`, which is `undefined` past the end of the list;
      `moment(undefined)` is the current moment, whose day is `today`. */
  function PageEnd(ends: seq<Date>, i: nat, today: int): (r: Date)
    ensures i < |ends| ==> r == ends[i]
    ensures |ends| <= i ==> r == Day(today)
  {
    if i < |ends| then ends[i] else Day(today)
  }

  /** A body page with the end date that dates it. */
  function DatedPage(page: (Page, Date)): Result<seq<MenuDay>> {
    CcaPage(page.0, page.1)
  }

  /** `parseCCA` from the two extracted documents: the title pages give the end
      dates, the body page at index `i` is dated by the `i`-th of them. */
  function CcaMenu(titlePages: seq<Page>, pages: seq<Page>, today: int): (r: Result<seq<MenuDay>>)
    ensures EndDates(titlePages).Failed? ==> r == Failed(EndDates(titlePages).crash)
    ensures EndDates(titlePages).Ok? ==> (r.Failed? <==> exists k :: 0 <= k < |pages| && pages[k] == [])
    ensures r.Ok? ==> EndDates(titlePages).Ok?
    ensures r.Ok? ==>
      exists parts :: |parts| == |pages| && r.value == Flatten(parts) &&
        forall k :: 0 <= k < |pages| ==> CcaPage(pages[k], PageEnd(EndDates(titlePages).value, k, today)) == Ok(parts[k])
    ensures r.Ok? ==> forall d :: d in r.value ==> IsCleanDay(d)
  {
    match EndDates(titlePages)
    case Failed(c) => Failed(c)
    case Ok(ends) =>
      var dated := seq(|pages|, i requires 0 <= i < |pages| => (pages[i], PageEnd(ends, i, today)));
      assert forall k :: 0 <= k < |pages| ==> DatedPage(dated[k]) == CcaPage(pages[k], PageEnd(ends, k, today));
      match MapResult(dated, DatedPage)
      case Failed(c) => Failed(c)
      case Ok(days) =>
        assert forall d :: d in Flatten(days) ==> IsCleanDay(d) by {
          forall d | d in Flatten(days) ensures IsCleanDay(d) {
            FlattenMember(days, d);
            var k :| 0 <= k < |days| && d in days[k];
            assert DatedPage(dated[k]) == Ok(days[k]);
          }
        }
        Ok(Flatten(days))
  }
}
