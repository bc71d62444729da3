/** The continuation merger shared by the Araranguá and CCA parsers: one
    forward pass over the dish cells of a day that blanks numbering noise and
    appends each word-wrapped line to the slot before it, then a filter that
    drops the blanks. */
module Merger {
  import opened Common
  import opened Text

  /** How the pass treats a cell, by its first character. */
  datatype CellKind =
    | Noise         // empty, or led by a digit: blanked
    | Continuation  // led by a lower-case (also accented) letter or '-': appended to the slot before
    | NewEntry      // anything else: left as it is

  /** The class `[a-z-áàâãéèêíïóôõöúçñ]`. */
  predicate IsContinuationLead(c: char) {
    ('a' <= c <= 'z') || c == '-' || c in "áàâãéèêíïóôõöúçñ"
  }

  /** The two tests of the callback, in their order: the digit test first,
      then the lower-case test. */
  function Classify(cell: string): (r: CellKind)
    ensures r == Noise <==> cell == "" || IsDigit(cell[0])
    ensures r == Continuation <==> cell != "" && !IsDigit(cell[0]) && IsContinuationLead(cell[0])
  {
    if cell == "" || IsDigit(cell[0]) then Noise
    else if IsContinuationLead(cell[0]) then Continuation
    else NewEntry
  }

  /** Only the first character decides: text appended to a cell does not
      change its kind. */
  lemma ClassifyByLead(cell: string, more: string)
    requires cell != ""
    ensures Classify(cell + more) == Classify(cell)
  {
    assert (cell + more)[0] == cell[0];
  }

  // ----- what the pass computes, slot by slot -----

  /** What a cell leaves in its own slot when it is visited. */
  function OwnPart(cell: string): string {
    if Classify(cell) == NewEntry then cell else ""
  }

  /** Slot `j` once the pass is over: what cell `j` left there, followed by the
      next cell if that one is a continuation (it is written when the pass
      visits `j + 1`, after `j` has been visited). */
  function MergedSlot(cells: seq<string>, j: nat): string
    requires j < |cells|
  {
    OwnPart(cells[j]) + (if j + 1 < |cells| && Classify(cells[j + 1]) == Continuation then " " + cells[j + 1] else "")
  }

  function MergedSlots(cells: seq<string>): seq<string> {
    seq(|cells|, j requires 0 <= j < |cells| => MergedSlot(cells, j))
  }

  /** The dishes that survive the pass and the filter: never more than the
      cells, and none of them empty, led by a digit, or led by a lower-case
      letter or '-'. */
  function Merge(cells: seq<string>): (r: seq<string>)
    ensures |r| <= |cells|
    ensures forall x :: x in r ==> Classify(x) == NewEntry
  {
    MergedSlotsKind(cells);
    Keep(MergedSlots(cells), IsFilled)
  }

  // ----- the pass as the source runs it, in place -----

  /** One call of the `forEach` callback, at `index`: a noise cell or a
      continuation is blanked, a continuation is first appended, after a space,
      to the slot before it, and every other slot is left alone. At index 0 the
      continuation is written to `plates[-1]`, which is not an element of the
      array: only the blanking of the cell itself remains. */
  method VisitCell(plates: array<string>, index: nat)
    requires index < plates.Length
    modifies plates
    ensures plates[index] == OwnPart(old(plates[index]))
    ensures index > 0 ==>
      plates[index - 1] == old(plates[index - 1]) + (if Classify(old(plates[index])) == Continuation then " " + old(plates[index]) else "")
    ensures forall j :: 0 <= j < plates.Length && j != index && j + 1 != index ==> plates[j] == old(plates[j])
  {
    var ingredient := plates[index];
    if ingredient == "" || IsDigit(ingredient[0]) {
      plates[index] := "";
    } else if IsContinuationLead(ingredient[0]) {
      if index > 0 {
        plates[index - 1] := plates[index - 1] + " " + ingredient;
      }
      plates[index] := "";
    } else {
      assert index > 0 ==> plates[index - 1] + "" == plates[index - 1];
    }
  }

  /** `plates.forEach(...)`: visits every index in order, rewriting the array. */
  method MergeContinuations(plates: array<string>)
    modifies plates
    ensures plates[..] == MergedSlots(old(plates[..]))
  {
    ghost var cells := plates[..];
    for index := 0 to plates.Length
      invariant forall j :: 0 <= j < index - 1 ==> plates[j] == MergedSlot(cells, j)
      invariant 0 < index ==> plates[index - 1] == OwnPart(cells[index - 1])
      invariant forall j :: index <= j < plates.Length ==> plates[j] == cells[j]
    {
      VisitCell(plates, index);
      assert 0 < index ==> plates[index - 1] == MergedSlot(cells, index - 1);
    }
    assert forall j :: 0 <= j < plates.Length ==> plates[j] == MergedSlot(cells, j);
  }

  /** The merge and the `filter` that follows it, on a fresh copy of the cells. */
  method MergePlates(cells: seq<string>) returns (plates: seq<string>)
    ensures plates == Merge(cells)
  {
    var a := new string[|cells|](i requires 0 <= i < |cells| => cells[i]);
    assert a[..] == cells;
    MergeContinuations(a);
    plates := Keep(a[..], IsFilled);
  }

  // ----- properties of the result -----

  /** Every slot the pass leaves filled starts a dish: appending keeps the first
      character, and a continuation appended to a blank slot begins with the
      space that joined it. */
  lemma MergedSlotKind(cells: seq<string>, j: nat)
    requires j < |cells|
    ensures MergedSlot(cells, j) == "" || Classify(MergedSlot(cells, j)) == NewEntry
  {
    var own := OwnPart(cells[j]);
    var slot := MergedSlot(cells, j);
    if own != "" {
      assert slot[0] == own[0];
    } else if slot != "" {
      assert slot[0] == ' ';
    }
  }

  /** Every slot the pass leaves is blank or starts a dish. */
  lemma MergedSlotsKind(cells: seq<string>)
    ensures forall x :: x in MergedSlots(cells) ==> x == "" || Classify(x) == NewEntry
  {
    var slots := MergedSlots(cells);
    forall x | x in slots ensures x == "" || Classify(x) == NewEntry {
      var j :| 0 <= j < |slots| && slots[j] == x;
      MergedSlotKind(cells, j);
    }
  }

  /** Cells that all start dishes go through unchanged. */
  lemma MergeOfEntries(cells: seq<string>)
    requires forall x :: x in cells ==> Classify(x) == NewEntry
    ensures Merge(cells) == cells
  {
    var slots := MergedSlots(cells);
    forall j | 0 <= j < |cells| ensures slots[j] == cells[j] {
      assert cells[j] in cells;
      assert j + 1 < |cells| ==> cells[j + 1] in cells;
    }
    assert slots == cells;
    KeepAll(cells, IsFilled);
  }

  /** Merging twice gives what merging once gives. */
  lemma MergeIdempotent(cells: seq<string>)
    ensures Merge(Merge(cells)) == Merge(cells)
  {
    MergeOfEntries(Merge(cells));
  }

  /** The merge is local: where the cells after a cut do not begin with a
      continuation, the dishes of the whole are the dishes of the part before
      the cut followed by those of the part after it, in order. */
  lemma MergeAppend(a: seq<string>, b: seq<string>)
    requires b == [] || Classify(b[0]) != Continuation
    ensures Merge(a + b) == Merge(a) + Merge(b)
  {
    var ab := a + b;
    assert MergedSlots(ab) == MergedSlots(a) + MergedSlots(b) by {
      forall j | 0 <= j < |ab|
        ensures MergedSlots(ab)[j] == (MergedSlots(a) + MergedSlots(b))[j]
      {
        if j < |a| {
          assert ab[j] == a[j];
          assert j + 1 < |a| ==> ab[j + 1] == a[j + 1];
        } else {
          assert ab[j] == b[j - |a|];
          assert j + 1 < |ab| ==> ab[j + 1] == b[j + 1 - |a|];
        }
      }
    }
    KeepAppend(MergedSlots(a), MergedSlots(b), IsFilled);
  }

  /** A dish and the line wrapped under it, on their own, merge into one dish. */
  lemma MergePair(a: string, b: string)
    requires Classify(a) == NewEntry && Classify(b) == Continuation
    ensures Merge([a, b]) == [a + " " + b]
  {
    var joined := a + " " + b;
    assert MergedSlot([a, b], 0) == joined;
    assert MergedSlot([a, b], 1) == "" + "";
    assert MergedSlots([a, b]) == [joined] + [""];
    KeepAppend([joined], [""], IsFilled);
    assert Keep([joined], IsFilled) == [joined] && Keep([""], IsFilled) == [];
  }

  /** A wrapped line is joined, after a space, to the dish above it. */
  lemma MergeJoins(a: string, b: string, rest: seq<string>)
    requires Classify(a) == NewEntry && Classify(b) == Continuation
    requires rest == [] || Classify(rest[0]) != Continuation
    ensures Merge([a, b] + rest) == [a + " " + b] + Merge(rest)
  {
    MergeAppend([a, b], rest);
    MergePair(a, b);
  }

  lemma ExampleKinds()
    ensures Classify("Arroz") == NewEntry && Classify("Feijão") == NewEntry
    ensures Classify("integral") == Continuation
  {
  }

  lemma ExampleJoin()
    ensures "Arroz" + " " + "integral" == "Arroz integral"
  {
  }

  lemma ExampleLastDish()
    ensures Merge(["Feijão"]) == ["Feijão"]
  {
    ExampleKinds();
    MergeOfEntries(["Feijão"]);
  }

  lemma ExampleWrappedHead()
    ensures Merge(["Arroz", "integral", "Feijão"]) == ["Arroz integral"] + Merge(["Feijão"])
  {
    ExampleKinds();
    ExampleJoin();
    MergeJoins("Arroz", "integral", ["Feijão"]);
    assert ["Arroz", "integral"] + ["Feijão"] == ["Arroz", "integral", "Feijão"];
  }

  lemma MergeJoinsWrappedLine()
    ensures Merge(["Arroz", "integral", "Feijão"]) == ["Arroz integral", "Feijão"]
  {
    ExampleWrappedHead();
    ExampleLastDish();
  }

  /** A numbered dish is discarded as noise, and the line wrapped under it is
      kept on its own, led by the joining space. */
  lemma MergeDropsNumberedDish()
    ensures Merge(["1. Rice", "with beans", "2. Salad"]) == [" with beans"]
  {
    var cells := ["1. Rice", "with beans", "2. Salad"];
    assert Classify("1. Rice") == Noise && Classify("2. Salad") == Noise;
    assert Classify("with beans") == Continuation;
    assert MergedSlot(cells, 0) == " with beans";
    assert MergedSlot(cells, 1) == "" && MergedSlot(cells, 2) == "";
    assert MergedSlots(cells) == [" with beans", "", ""];
  }

  /** A continuation in the first cell has no slot before it and is lost; a
      second continuation after it lands on a blanked slot. */
  lemma MergeLosesLeadingContinuation()
    ensures Merge(["com", "sal", "Feijão"]) == [" sal", "Feijão"]
  {
    var cells := ["com", "sal", "Feijão"];
    assert Classify("com") == Continuation && Classify("sal") == Continuation;
    assert Classify("Feijão") == NewEntry;
    assert MergedSlot(cells, 0) == " sal";
    assert MergedSlot(cells, 1) == "" && MergedSlot(cells, 2) == "Feijão";
    assert MergedSlots(cells) == [" sal", "", "Feijão"];
  }

  /** Cells that are blank or numbered leave nothing. */
  lemma MergeDropsNoise()
    ensures Merge(["", "3", "4. Stew"]) == []
  {
    var cells := ["", "3", "4. Stew"];
    assert Classify("") == Noise && Classify("3") == Noise && Classify("4. Stew") == Noise;
    assert MergedSlots(cells) == ["", "", ""];
  }
}
