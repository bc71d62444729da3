# Menu reconstruction of the UFSC restaurant scraper

The scraper in `parse_ru.js` collects the weekly menus of five university
restaurants: Trindade, Araranguá, CCA, Curitibanos and Joinville. It saves
each menu as a list of days, `{ date, plates }`. The pages it reads arrive
either as an HTML table (Trindade) or as a PDF table extracted into a grid of
cell texts (the other four). This project models the part of each parser
that turns such a grid into menu days, and proves what that part promises.

The modules follow the structure of the code:

- `Common`: `Option`, `Result` (a `TypeError` the code would raise is
  `Failed`), and the generic `filter`, `findIndex`, `flat`, `map` and
  `map(...).filter(e => e)` shapes the parsers are built from.
- `Text`: the character classes and string operations the parsers use.
  - Hand-written matchers for the fixed patterns (`\d{2}-\d{2}-\d{2}`, etc.).
  - `split(' ')[0]`, `trim`, `split(/(\n|\s\s)/g)` and `replace(/\r/g, ' ')`.
- `Calendar`: dates as serial day numbers, with an explicit invalid date.
  - The strict field reading of moment.
  - The lenient rollover of `new Date(y, m, d)`.
  - The month-name table.
- `DateText`: the four date readers. Each is paired with a writer, and a
  round-trip lemma proves that reading the written date gives it back.
- `Grid`: the column projection shared by four parsers.
- `Merger`: the continuation merger that Araranguá and CCA share.
  - The in-place `forEach` pass as a method over an `array`.
  - The closed form it is proved against.
  - Lemmas about what survives the final `filter`.
- `CcaHeader`: a greedy leftmost matcher for the CCA title regular expression.
  Its result is proved to be the unique match a backtracking engine reports.
- `Trindade`, `Ararangua`, `Cca`, `Curitibanos`, `Joinville`: one module per
  parser. Each has functions for one column or row, one page and the whole
  document.

## Behaviour of the code worth knowing

- The merger blanks every cell whose first character is a digit. A dish
  written as `1. Rice` is therefore lost, and a line wrapped under it
  survives as ` with beans`, with a leading space.
- A continuation in the first slot of the merger is written to
  `plates[-1]`, so it is lost.
- Araranguá dishes start one row past the first blank cell below the date
  row. Where no blank cell follows, they start right below the date row.
- CCA drops every cell that holds one of the four category labels anywhere
  in its text.
- A CCA title page whose first cell does not match contributes no end date,
  and the later end dates move up one page. A body page past the last end
  date is dated from `moment(undefined)`, the current moment, and the run
  goes on.
- Only Trindade trims its dishes. Curitibanos keeps every cell below the
  date, blank ones included.
- Curitibanos takes lunch from the first page of its document and dinner
  from the second.
- `match(/…/g)` hands moment an array. moment reads its text, which starts
  with the first occurrence, so the first occurrence gives the date.
- The Araranguá date cell is given whole to moment, which reads `DD-MM-YY`
  from its first digits. Where no digit comes before the date, that is the
  first `DD-MM-YY` in the cell.

## Model

| member | source | states |
|---|---|---|
| Grid.Columns | parse_ru.js:93 | A page without rows has no columns (the source raises). Otherwise there are exactly `rows[0].length` columns, each with one entry per row. Column `i` at row `k` is `rows[k][i]` where that row has the cell, and blank otherwise. |
| Grid.ColumnsRoundTrip | parse_ru.js:93 | On a rectangular page with at least one cell, projecting the columns again gives the rows back: the projection is a transposition. |
| Grid.DayColumns | parse_ru.js:94 | `slice(1)` drops the label column: one column fewer, and column `i + 1` is now at `i`. |
| Merger.VisitCell | parse_ru.js:100-108 | One callback of the pass. The visited slot is blanked when its cell is empty, digit-led or a continuation. A continuation at an index above 0 is first appended, after a space, to the slot before it. No other slot changes. |
| Merger.MergeContinuations | parse_ru.js:100-109 | After the whole `forEach`, every slot holds what its own cell left there, followed by the next cell when that one is a continuation (`MergedSlots`). |
| Merger.MergePlates | parse_ru.js:99-110 | The slice, the in-place pass and the `filter` together give `Merge` of the cells. |
| Merger.MergedSlotKind | parse_ru.js:100-108 | Every slot the pass leaves is blank or starts a dish. |
| Merger.Classify | parse_ru.js:101-104 | A cell is noise exactly when it is empty or led by a digit, and a continuation exactly when it is led by a lower-case letter or `-` and not by a digit; anything else starts a dish. |
| Merger.ClassifyByLead | parse_ru.js:101-104 | The kind of a cell depends only on its first character. |
| Merger.Merge | parse_ru.js:99-110 | The dishes are never more than the cells, and every one of them starts a dish: none is empty, digit-led or led by a lower-case letter or `-`. |
| Merger.MergedSlotsKind | parse_ru.js:100-108 | After the pass every slot is blank or starts a dish, so the `filter` keeps only dishes. |
| Merger.MergeOfEntries | parse_ru.js:100-110 | Cells that all start dishes come through unchanged. |
| Merger.MergeIdempotent | parse_ru.js:100-110 | Merging the merged dishes again changes nothing. |
| Merger.MergeAppend | parse_ru.js:100-110 | The merge keeps order: cut the cells where the second part does not begin with a continuation, and the dishes of the whole are those of the first part followed by those of the second. |
| Merger.MergePair | parse_ru.js:104-110 | A dish followed by its wrapped line, alone, merges into the one dish `a + " " + b`. |
| Merger.MergeJoins | parse_ru.js:104-107 | A dish followed by a wrapped line becomes one dish, the two joined by a space. |
| Merger.MergeJoinsWrappedLine | parse_ru.js:100-110 | `Arroz`, `integral`, `Feijão` give `Arroz integral`, `Feijão`. |
| Merger.MergeDropsNumberedDish | parse_ru.js:101-107 | A numbered dish is dropped. The line wrapped under it lands on the blanked slot and survives as ` with beans`. |
| Merger.MergeLosesLeadingContinuation | parse_ru.js:104-107 | A continuation in the first cell is lost, and a second one after it survives with a leading space. |
| Merger.MergeDropsNoise | parse_ru.js:101-103 | Blank and numbered cells leave nothing. |
| Common.Keep | parse_ru.js:110 | `filter` keeps exactly the elements that pass the test and is never longer than its input. |
| Common.KeepAppend | parse_ru.js:110 | `filter` distributes over concatenation, so it keeps the relative order of what it keeps. |
| Common.IndexWhere | parse_ru.js:95 | `findIndex` gives the first index whose element passes, or none when no element passes. |
| Common.Present | parse_ru.js:94-116 | `map(f).filter((e) => e)` holds exactly the objects `f` returns for some element, and is no longer than its input. |
| Common.PresentOne | parse_ru.js:116 | One element gives its own object, or nothing where `f` returns `null`. |
| Common.PresentAppend | parse_ru.js:116 | Dropping the `null`s distributes over concatenation: the objects keep the order of the elements that give them, repeats included. |
| Common.MapResult | parse_ru.js:91 | A `map` whose callback may raise either gives one result per element, in order, or fails with the crash of the first element that raises. |
| Common.FlattenAppend | parse_ru.js:91 | `flat` distributes over concatenation. |
| Common.FlattenMember | parse_ru.js:91 | Every element of a flattened list comes from one of its pieces. |
| Calendar.AddDays | parse_ru.js:142 | `add(days, 'days')` keeps an invalid date invalid and moves a valid one by exactly `days`. |
| Calendar.LeapStep | parse_ru.js:131 | The Gregorian leap-year count grows by one exactly at a leap year. |
| Calendar.YearLength | parse_ru.js:131 | The twelve month lengths add up to 366 in a leap year and 365 otherwise. |
| Calendar.Rollover | parse_ru.js:131 | `new Date(y, m, d)` with `d` past the end of the month is the matching day of the next month, across a year end too. |
| Calendar.Serial | parse_ru.js:131 | A day within its month gets a serial number between the first day of its year and the first day of the next. |
| Calendar.CivilDate | parse_ru.js:97 | A strictly read date is valid exactly when its month is 1 to 12 and its day lies within that month, and then falls within its year. The Trindade, Curitibanos and Joinville readers (lines 78, 178, 198) use it too. |
| Calendar.NextCivilDate | parse_ru.js:142 | One day on from a valid date is the next day of its month, the first of the next month, or the first of January of the next year. |
| Calendar.MomentTwoDigitYear | parse_ru.js:97 | moment reads `YY` as a year from 1969 to 2068 that ends in those two digits. |
| Calendar.JsDateYear | parse_ru.js:131 | `new Date` takes a year from 0 to 99 as 1900 to 1999 and keeps any other year. |
| Calendar.MonthMappingIsBijection | parse_ru.js:19-32 | The month table maps the twelve Portuguese month names one-to-one onto 0 to 11, in calendar order. |
| DateText.DottedDate | parse_ru.js:78 | A valid date is read only from a first word that matches `DD.MM.yyyy`. |
| DateText.DottedDateRoundTrip | parse_ru.js:78 | A cell that starts with a date written `DD.MM.YYYY`, then a space, is read as that date. |
| DateText.ShortDate | parse_ru.js:97 | A valid date is read only from a cell that holds `DD-MM-YY` somewhere. |
| DateText.ShortDateRoundTrip | parse_ru.js:97 | A date written `DD-MM-YY` after text without digits is read back, its year completed as moment does. |
| DateText.DayMonthDate | parse_ru.js:175-178 | No date exactly when no `DD/MM` occurs in the cell. |
| DateText.DayMonthDateRoundTrip | parse_ru.js:175-178 | A date written `DD/MM` after text without digits is read back in the given year. |
| DateText.SlashedDate | parse_ru.js:196-198 | No date exactly when no `DD/MM/YYYY` occurs in the cell. |
| DateText.SlashedDateRoundTrip | parse_ru.js:196-198 | A date written `DD/MM/YYYY` after text without digits is read back. |
| Text.FindTemplateFrom | parse_ru.js:95 | The search finds the leftmost position where the fixed pattern matches, and none only where it matches nowhere. |
| Text.NumberOfDigits | parse_ru.js:131 | `parseInt` of a zero-padded decimal number gives the number back. |
| Text.FirstToken | parse_ru.js:78 | `split(' ')[0]` is a prefix without spaces that ends at the first space or at the end of the text. |
| Text.FirstTokenOf | parse_ru.js:78 | The first word of text without spaces followed by a space is that text. |
| Text.Trim | parse_ru.js:79 | `trim` is never longer than its input and leaves no white space at either end. |
| Text.TrimSpec | parse_ru.js:79 | `trim` cuts only white space from either end, leaves a stretch of the input, and leaves no white space at either end. |
| Text.Split | parse_ru.js:79 | `split(/(\n|\s\s)/g)` gives an odd number of pieces, which joined give the text back. |
| Text.SplitFromConcat | parse_ru.js:79 | Splitting on a line feed or on two white space characters loses nothing: joining the pieces, separators included, gives the text back. |
| Text.SplitFromShape | parse_ru.js:79 | The pieces alternate: text without breaks at even positions, captured separators at odd positions. |
| Text.SplitOfNoBreaks | parse_ru.js:79 | Text without breaks splits into itself alone. |
| Text.SplitFromShift | parse_ru.js:79 | Text in front of the point where splitting starts does not change the pieces. |
| Text.SplitAfterPiece | parse_ru.js:79 | Text without breaks that does not end in white space, then a line feed or two spaces, then any text: the first two pieces are that text and that separator, and the pieces of the rest follow. |
| Text.ReplaceCarriageReturns | parse_ru.js:172 | `replace(/\r/g, ' ')` keeps the length, turns every carriage return into a space and leaves every other character. |
| Text.ContainsAcrossSpace | parse_ru.js:144 | A word without spaces occurs in two texts joined by a space only where it occurs in one of them. |
| Trindade.PlatesAppend | parse_ru.js:79 | The dishes of consecutive cells are those of the first cells followed by those of the rest, in order. |
| Trindade.PiecesShape | parse_ru.js:79 | Every piece of the split cells is text without breaks or a separator. |
| Trindade.TrimOfPiece | parse_ru.js:79 | A piece trims to nothing or to a clean dish. |
| Trindade.TrimmedPiecesShape | parse_ru.js:79 | Every trimmed piece that is not empty is a clean dish. |
| Trindade.Plates | parse_ru.js:79 | Every dish is non-empty and trimmed, holds no line feed, and holds no two white space characters in a row. |
| Trindade.PlatesOfCell | parse_ru.js:79 | The dishes of one cell are its split pieces, trimmed, without the empty ones. |
| Trindade.PlatesSplitAtSeparator | parse_ru.js:79 | A clean dish, then a line feed or two spaces, then any text: that dish comes first, and the dishes of the rest follow. |
| Trindade.PlatesOfTwo | parse_ru.js:79 | Two clean dishes with a line feed or two spaces between them, in one cell, come out as those two dishes. |
| Trindade.ExampleTwoLines | parse_ru.js:79 | `"Arroz\nFeijão"` gives the dishes `"Arroz"` and `"Feijão"`. |
| Trindade.ExampleTwoSpaces | parse_ru.js:79 | `"Arroz  Feijão"` gives the dishes `"Arroz"` and `"Feijão"`. |
| Trindade.PlatesOfCleanCells | parse_ru.js:79 | Cells that each hold one clean dish come out unchanged. |
| Trindade.PlatesIdempotent | parse_ru.js:79 | Splitting, trimming and filtering the dishes again changes nothing. |
| Trindade.TrindadeDay | parse_ru.js:77-80 | A row without cells raises. Otherwise the date is read from the first word of the first cell, and the dishes are `Plates` of the other cells, each clean. |
| Trindade.TrindadeMenu | parse_ru.js:74-81 | The header row is skipped. The menu fails exactly when a later row is empty. Otherwise it has one day per later row, in order. |
| Ararangua.DishStart | parse_ru.js:98 | The dishes start one row past the first blank cell below the date row. Where no blank cell follows, they start right below the date row. |
| Ararangua.AraranguaColumn | parse_ru.js:95-114 | A column without a `DD-MM-YY` cell gives no day. Otherwise the day is dated by its first date cell, and its dishes are the merged cells from `DishStart`, each of which starts a dish. |
| Ararangua.AraranguaPage | parse_ru.js:91-116 | A page without rows raises. Otherwise the label column is skipped, and the days are those of the dated columns, in column order (`Present` over the day columns). |
| Ararangua.AraranguaMenu | parse_ru.js:91-116 | The menu fails exactly when some page has no rows. Otherwise it is the days of each page, page after page, in page order. |
| Ararangua.ColumnExample | parse_ru.js:95-114 | A weekday, a date, a blank row and three lines give one day of two dishes, the wrapped line joined. |
| Ararangua.NoBlankExample | parse_ru.js:98 | Without a blank row the dishes start right below the date. |
| CcaHeader.LastTail | parse_ru.js:128 | The search finds the last end of the second `.+` at or before a bound, and none only where there is none. |
| CcaHeader.LastSplit | parse_ru.js:128 | The search finds the last end of the first `.+` that admits a tail, together with that tail's last end. |
| CcaHeader.FindHeaderFrom | parse_ru.js:128 | The search finds the leftmost start and, for it, the greedy split. It fails only where the pattern matches nowhere. |
| CcaHeader.FindHeader | parse_ru.js:128 | The search gives the match a backtracking engine reports, or none only where the title does not match. |
| CcaHeader.RegexMatchUnique | parse_ru.js:128 | That match is unique, so the captures depend only on the text. |
| CcaHeader.EndDateOf | parse_ru.js:128-131 | A title gives no end date exactly when it does not match. |
| CcaHeader.EndDateOfMatch | parse_ru.js:128 | A title that matches from its start, ends with its year and has no digit between its day and its year is reported with that match. |
| CcaHeader.TailAfter | parse_ru.js:128 | ` a DD de <month> de YYYY` after any text puts its ` a ` right after that text, ends the title, and has no digit between its day and its year. |
| CcaHeader.TitleMatches | parse_ru.js:128 | A title `Cardápio de DD de <text> a DD de <month> de YYYY` on one line matches that way, with its ` a ` right after the free text. |
| CcaHeader.TitleFields | parse_ru.js:128-130 | The day, month name and year of such a title sit where the captures are. |
| CcaHeader.EndDateOfFields | parse_ru.js:128-131 | Once the match is found, the end date is built from its captured day, month name and year, and is an invalid date where the month name is not in the table. |
| CcaHeader.EndDateOfTitle | parse_ru.js:128-131 | Such a title names `new Date(year, monthMapping[month], day)` as its end date, and an invalid date where the month name is not in the table. |
| CcaHeader.ExampleTitleFound | parse_ru.js:128 | The title `Cardápio de 05 de junho a 09 de junho de 2023` matches from 0, split at 23 and 37. |
| CcaHeader.EndDateExample | parse_ru.js:128-131 | That title names 9 June 2023. |
| Cca.TitleDates | parse_ru.js:127-132 | A title page without a first cell raises. A page gives at most one end date, none exactly when its first cell does not match, and otherwise the date that cell names. |
| Cca.EndDates | parse_ru.js:127-132 | The end dates fail exactly when some title page has no first cell. Otherwise they are the dates of the title pages (one or none each, `TitleDates`) joined in page order. |
| Cca.EndDatesSkipUnmatched | parse_ru.js:127-132 | An unmatched first title page contributes nothing, so the end dates of the later pages move up one page. |
| Cca.EndDatesAligned | parse_ru.js:127-137 | Where every title page matches, body page `k` is dated by the end date title page `k` names. |
| Cca.BlankStart | parse_ru.js:143 | The dishes start one row past the first blank cell, or at the top where there is none. |
| Cca.LabelAcrossSpace | parse_ru.js:144 | Joining two label-free cells with a space creates no label. |
| Cca.MergeKeepsNoLabel | parse_ru.js:144-155 | Merging label-free cells creates no label. |
| Cca.CcaDishes | parse_ru.js:143-155 | The dishes are the cells below the first blank, without the label cells, merged. Every dish starts a dish and holds none of the four category labels. |
| Cca.ColumnDates | parse_ru.js:140-142 | With `n` columns and end date `E`, column `i` is dated `E` minus `n - 1 - i` days. |
| Cca.ColumnDatesSpec | parse_ru.js:140-142 | The last column is the end date, each column is the day before the next, and an invalid end date makes every column invalid. |
| Cca.CcaPage | parse_ru.js:136-160 | A page without rows raises. Otherwise every column is a day, dated by `ColumnDates`, and every dish is clean. |
| Cca.PageEnd | parse_ru.js:137-142 | Body page `i` takes the `i`-th end date, and the current day past the last one. |
| Cca.CcaMenu | parse_ru.js:120-161 | A title page without a first cell fails the menu. Otherwise the menu fails exactly when some body page has no rows, and is the days of each body page, dated by `PageEnd`, page after page in page order; every dish of every day is clean. |
| Curitibanos.CleanRows | parse_ru.js:172 | The cleaned page has the same shape. Each cell is the original cell with every carriage return replaced by a space, so no cell holds one. |
| Curitibanos.CuritibanosColumn | parse_ru.js:174-180 | A column gives no day exactly when its first cell holds no `DD/MM`. Otherwise the day is dated in the given year, and its dishes are every cell below, blank ones included. |
| Curitibanos.CuritibanosPage | parse_ru.js:171-181 | A page without rows raises. Otherwise the days are those of the columns with a `DD/MM` first cell, in column order; every day has one dish per row below the first, and no dish holds a carriage return. |
| Curitibanos.CuritibanosMenu | parse_ru.js:171-183 | The menu fails exactly when some page, even past the second, has no rows. Lunch is the first page and dinner the second, each absent when the document is shorter. |
| Joinville.JoinvilleColumn | parse_ru.js:195-205 | A column gives no day exactly when its second cell holds no `DD/MM/YYYY` or every cell from the third row down is blank. Otherwise its dishes are exactly the non-blank cells from the third row down. |
| Joinville.JoinvillePage | parse_ru.js:192-205 | The page raises exactly when it has no rows, or has day columns but no second row. Otherwise the days are those of the columns after the first that have a date and a dish, in column order. |
| Joinville.JoinvilleMenu | parse_ru.js:192-205 | The menu fails exactly when some page raises. Otherwise it is the days of each page, page after page in page order; every day has at least one dish and no blank dish. |

## Left out

- Fetching and reading the HTML pages (JSDOM), downloading the PDFs, the
  tabula extraction run through `exec`, and loading its JSON with `require`
  are I/O. The model starts from the extracted grid of cell texts, or, for
  Trindade, from the rows of cell texts.
- `saveMenu` and the Firestore client are a persistence sink and are not
  modelled.
- The cron schedule and `runAll` are not modelled. `runAll`'s single
  `try`/`catch` stops all later parsers at the first failure; a failure is
  modelled only as a `Failed` result.
- Console logging is not modelled.
- Time of day is not modelled. Every parser adds three hours to the moment it
  builds, which keeps the stored day from moving under a time-zone
  conversion, so a date is a day number. That moment is midnight, except for
  a CCA body page past the last end date, built from the current moment;
  there the day kept is a parameter.
- The current year (Curitibanos) and the current day (a CCA body page without
  an end date) are parameters.
- Ragged rows are read as padded with blank cells. The code would find
  `undefined` there, and the merger's `undefined[0]` would raise.
- `undefined` as a dinner menu, where a Curitibanos document has one page, is
  an absent `Option`. How the sink stores it is not modelled.
- moment's lenient parsing is narrowed to the fixed patterns the regular
  expressions guard. Single-digit fields, separators other than the
  pattern's, are read as invalid or as not matching.
- DateText.DottedDate: states only that a valid date comes from a matching
  first word, not which date; DateText.DottedDateRoundTrip states which. It
  reads `yyyy` as a four-digit year, as `YYYY`; this is what moment versions
  that know the `yyyy` token do for years of the common era.
- DateText.ShortDate: reads the first `DD-MM-YY` in the cell. moment's
  non-strict parse of the whole cell takes `DD` from the first digits in it,
  so the two agree only where no digit comes before the date;
  DateText.ShortDateRoundTrip states which date for such cells.
- Common.Flatten: its own contract only covers the empty list;
  Common.FlattenAppend and Common.FlattenMember carry its properties.
- Joinville.JoinvilleColumn: states which cells become dishes, not their
  order. The order is that of `filter`, which Common.KeepAppend covers.
