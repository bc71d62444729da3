/** The Trindade menu, read from an HTML table: one row per day, the first cell
    holding the date and the others holding the dishes, several to a cell,
    separated by line breaks or runs of white space. */
module Trindade {
  import opened Common
  import opened Text
  import opened Grid
  import opened DateText

  /** `plates.flatMap((i) => i.split(/(\n|\s\s)/g))`: the pieces of every cell,
      separators included, in order. */
  function Pieces(cells: seq<string>): seq<string> {
    Flatten(Apply(cells, Split))
  }

  /** `.map((i) => i.trim())`. */
  function TrimAll(pieces: seq<string>): seq<string> {
    Apply(pieces, Trim)
  }

  /** A dish as the parser leaves it: non-empty, trimmed, on one line and
      without two white space characters in a row. */
  predicate IsCleanPlate(x: string) {
    x != "" && IsTrimmed(x) && NoBreaks(x)
  }

  /** The dishes of a row: the pieces trimmed, without the empty ones. Every
      dish is clean. */
  function Plates(cells: seq<string>): (r: seq<string>)
    ensures forall x :: x in r ==> IsCleanPlate(x)
  {
    TrimmedPiecesShape(cells);
    Keep(TrimAll(Pieces(cells)), IsFilled)
  }

  /** The dishes of consecutive cells are those of the first cells followed by
      those of the rest: the order of the cells is kept. */
  lemma PlatesAppend(a: seq<string>, b: seq<string>)
    ensures Plates(a + b) == Plates(a) + Plates(b)
  {
    ApplyAppend(a, b, Split);
    FlattenAppend(Apply(a, Split), Apply(b, Split));
    ApplyAppend(Pieces(a), Pieces(b), Trim);
    KeepAppend(TrimAll(Pieces(a)), TrimAll(Pieces(b)), IsFilled);
  }

  /** Every piece of the split cells is either text without breaks or a separator. */
  lemma {:induction false} PiecesShape(cells: seq<string>)
    ensures forall q :: q in Pieces(cells) ==> NoBreaks(q) || IsSeparator(q)
  {
    if cells != [] {
      var rest := cells[1..];
      assert cells == [cells[0]] + rest;
      ApplyAppend([cells[0]], rest, Split);
      assert Apply([cells[0]], Split) == [Split(cells[0])];
      FlattenCons(Split(cells[0]), Apply(rest, Split));
      PiecesShape(rest);
      SplitFromShape(cells[0], 0);
      forall q | q in Split(cells[0]) ensures NoBreaks(q) || IsSeparator(q) {
        var k :| 0 <= k < |Split(cells[0])| && Split(cells[0])[k] == q;
        assert k % 2 == 0 || k % 2 == 1;
      }
    }
  }

  /** A separator trims to nothing. */
  lemma TrimOfSeparator(q: string)
    requires IsSeparator(q)
    ensures Trim(q) == ""
  {
    assert forall k :: 0 <= k < |q| ==> IsSpace(q[k]);
    TrimOfSpaces(q);
  }

  /** Text without breaks trims to nothing or to a clean dish. */
  lemma TrimOfText(q: string)
    requires NoBreaks(q)
    ensures Trim(q) == "" || IsCleanPlate(Trim(q))
  {
    TrimKeepsNoBreaks(q);
  }

  /** A piece trims to nothing or to a clean dish. */
  lemma TrimOfPiece(q: string)
    requires NoBreaks(q) || IsSeparator(q)
    ensures Trim(q) == "" || IsCleanPlate(Trim(q))
  {
    if IsSeparator(q) {
      TrimOfSeparator(q);
    } else {
      TrimOfText(q);
    }
  }

  /** Every piece that does not trim to nothing trims to a clean dish. */
  lemma TrimmedPiecesShape(cells: seq<string>)
    ensures forall x :: x in TrimAll(Pieces(cells)) && x != "" ==> IsCleanPlate(x)
  {
    var pieces := Pieces(cells);
    var trimmed := TrimAll(pieces);
    PiecesShape(cells);
    forall x | x in trimmed && x != "" ensures IsCleanPlate(x) {
      var k :| 0 <= k < |trimmed| && trimmed[k] == x;
      assert pieces[k] in pieces;
      TrimOfPiece(pieces[k]);
    }
  }

  /** A clean dish alone in a cell comes out as itself. */
  lemma PlatesOfCleanCell(x: string)
    requires IsCleanPlate(x)
    ensures Plates([x]) == [x]
  {
    SplitOfNoBreaks(x);
    assert Apply([x], Split) == [[x]];
    FlattenCons([x], []);
    TrimOfTrimmed(x);
    assert TrimAll([x]) == [x];
  }

  /** The dishes of one cell are its pieces, trimmed, without the empty ones. */
  lemma PlatesOfCell(c: string)
    ensures Plates([c]) == Keep(TrimAll(Split(c)), IsFilled)
  {
    assert Apply([c], Split) == [Split(c)];
    FlattenCons(Split(c), []);
    assert Pieces([c]) == Split(c);
  }

  /** A clean dish followed by a line feed or by two spaces is the first dish
      of the cell, and the rest of the cell gives the dishes after it. */
  lemma PlatesSplitAtSeparator(a: string, sep: string, b: string)
    requires IsCleanPlate(a)
    requires sep == "\n" || sep == "  "
    ensures Plates([a + sep + b]) == [a] + Plates([b])
  {
    var t := TrimAll(Split(b));
    TrimmedAfterDish(a, sep, b);
    assert Keep([a, ""] + t, IsFilled) == [a] + Keep(t, IsFilled) by {
      KeepAppend([a, ""], t, IsFilled);
      assert Keep([a, ""], IsFilled) == [a];
    }
    PlatesOfCell(a + sep + b);
    PlatesOfCell(b);
  }

  /** After trimming, the dish and its separator become the dish and an empty
      piece, in front of the trimmed pieces of the rest. */
  lemma TrimmedAfterDish(a: string, sep: string, b: string)
    requires IsCleanPlate(a)
    requires sep == "\n" || sep == "  "
    ensures TrimAll(Split(a + sep + b)) == [a, ""] + TrimAll(Split(b))
  {
    SplitAfterPiece(a, sep, b);
    TrimAllPair(a, sep, Split(b));
    TrimOfTrimmed(a);
    TrimOfSeparator(sep);
  }

  /** Trimming pieces one by one, the first two of them. */
  lemma TrimAllPair(x: string, y: string, rest: seq<string>)
    ensures TrimAll([x, y] + rest) == [Trim(x), Trim(y)] + TrimAll(rest)
  {
    ApplyPair(x, y, rest, Trim);
  }

  /** Two clean dishes with a line feed or two spaces between them. */
  lemma PlatesOfTwo(a: string, sep: string, b: string)
    requires IsCleanPlate(a) && IsCleanPlate(b)
    requires sep == "\n" || sep == "  "
    ensures Plates([a + sep + b]) == [a, b]
  {
    PlatesSplitAtSeparator(a, sep, b);
    PlatesOfCleanCell(b);
  }

  /** Two dishes on two lines of one cell. */
  lemma ExampleTwoLines()
    ensures Plates(["Arroz\nFeijão"]) == ["Arroz", "Feijão"]
  {
    assert "Arroz\nFeijão" == "Arroz" + "\n" + "Feijão";
    PlatesOfTwo("Arroz", "\n", "Feijão");
  }

  /** Two dishes on one line of one cell, two spaces apart. */
  lemma ExampleTwoSpaces()
    ensures Plates(["Arroz  Feijão"]) == ["Arroz", "Feijão"]
  {
    assert "Arroz  Feijão" == "Arroz" + "  " + "Feijão";
    PlatesOfTwo("Arroz", "  ", "Feijão");
  }

  /** Cells that each hold one clean dish come out unchanged. */
  lemma {:induction false} PlatesOfCleanCells(xs: seq<string>)
    requires forall x :: x in xs ==> IsCleanPlate(x)
    ensures Plates(xs) == xs
  {
    if xs != [] {
      assert xs == [xs[0]] + xs[1..];
      PlatesAppend([xs[0]], xs[1..]);
      PlatesOfCleanCell(xs[0]);
      PlatesOfCleanCells(xs[1..]);
    }
  }

  /** Splitting the dishes again changes nothing. */
  lemma PlatesIdempotent(cells: seq<string>)
    ensures Plates(Plates(cells)) == Plates(cells)
  {
    PlatesOfCleanCells(Plates(cells));
  }

  /** `contentToDayAndPlates([date, ...plates])`. A row without cells leaves
      `date` undefined, and `date.split` raises. */
  function TrindadeDay(cells: Row): (r: Result<MenuDay>)
    ensures r.Failed? <==> cells == []
    ensures r.Ok? ==> r.value.date == DottedDate(cells[0])
    ensures r.Ok? ==> r.value.plates == Plates(cells[1..])
    ensures r.Ok? ==> forall x :: x in r.value.plates ==> IsCleanPlate(x)
  {
    if cells == [] then Failed(NoCell)
    else Ok(MenuDay(DottedDate(cells[0]), Plates(cells[1..])))
  }

  /** `rows.slice(1).map(getCellContent).map(contentToDayAndPlates)`: the first
      row holds the column titles; each row after it is one day, in order. */
  function TrindadeMenu(table: seq<Row>): (r: Result<seq<MenuDay>>)
    ensures r.Failed? <==> exists k :: 1 <= k < |table| && table[k] == []
    ensures r.Ok? ==> |r.value| == (if table == [] then 0 else |table| - 1)
    ensures r.Ok? ==> forall i :: 0 <= i < |r.value| ==> TrindadeDay(table[i + 1]) == Ok(r.value[i])
  {
    var days := if table == [] then [] else table[1..];
    assert forall k :: 1 <= k < |table| ==> table[k] == days[k - 1];
    MapResult(days, TrindadeDay)
  }
}
