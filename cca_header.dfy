/** The title line of the CCA menu, "Cardápio de DD de … a DD de MONTH de YYYY",
    read with the regular expression
    `Cardápio de \d{2} de .+ a (\d{2}) de (.+) de (\d{4})`, and the end date of
    the week built from its three captures. */
module CcaHeader {
  import opened Common
  import opened Text
  import opened Calendar

  /** `.+`: a non-empty stretch `s[lo..hi]` without line terminators. */
  predicate AnyRun(s: string, lo: int, hi: int) {
    0 <= lo < hi <= |s| && forall k :: lo <= k < hi ==> !IsLineTerminator(s[k])
  }

  /** `\d{n}` at position `i`. */
  predicate DigitsAt(s: string, i: int, n: nat) {
    0 <= i && i + n <= |s| && forall k :: i <= k < i + n ==> IsDigit(s[k])
  }

  /** `Cardápio de \d{2} de ` at position `i`; the first `.+` starts at `i + 18`. */
  predicate HeadAt(s: string, i: int) {
    LiteralAt(s, i, "Cardápio de ") && DigitsAt(s, i + 12, 2) && LiteralAt(s, i + 14, " de ")
  }

  /** ` a (\d{2}) de (.+) de (\d{4})` with its ` a ` at `a` and its last ` de ` at `d`. */
  predicate TailAt(s: string, a: int, d: int) {
    && LiteralAt(s, a, " a ") && DigitsAt(s, a + 3, 2) && LiteralAt(s, a + 5, " de ")
    && AnyRun(s, a + 9, d) && LiteralAt(s, d, " de ") && DigitsAt(s, d + 4, 4)
  }

  /** Everything after the head of a match from `i`, split at `a` and `d`. */
  predicate SplitAt(s: string, i: int, a: int, d: int) {
    AnyRun(s, i + 18, a) && TailAt(s, a, d)
  }

  /** The whole pattern matches from `i`, splitting at `a` and `d`. */
  predicate HeaderAt(s: string, i: int, a: int, d: int) {
    HeadAt(s, i) && SplitAt(s, i, a, d)
  }

  /** Where a match starts, where its ` a ` is and where its last ` de ` is. */
  datatype HeaderMatch = HeaderMatch(start: nat, split: nat, last: nat)

  /** The match a backtracking regular expression engine reports: the leftmost
      start; for it, the longest first `.+`; for that, the longest second `.+`. */
  ghost predicate IsRegexMatch(s: string, m: HeaderMatch) {
    && HeaderAt(s, m.start, m.split, m.last)
    && (forall i, a, d :: 0 <= i < m.start ==> !HeaderAt(s, i, a, d))
    && (forall a, d :: m.split < a ==> !HeaderAt(s, m.start, a, d))
    && (forall d :: m.last < d ==> !TailAt(s, m.split, d))
  }

  /** The last position `d' <= d` where the tail after ` a ` at `a` can end its second `.+`. */
  function LastTail(s: string, a: nat, d: nat): (r: Option<nat>)
    ensures r.Some? ==> r.value <= d && TailAt(s, a, r.value)
    ensures r.Some? ==> forall d' :: r.value < d' <= d ==> !TailAt(s, a, d')
    ensures r.None? ==> forall d' :: d' <= d ==> !TailAt(s, a, d')
  {
    if TailAt(s, a, d) then Some(d)
    else if d == 0 then None
    else LastTail(s, a, d - 1)
  }

  /** The last ` a ` position `a' <= a` that ends the first `.+` of a match from
      `i` and admits a tail, with the last end of that tail. */
  function LastSplit(s: string, i: nat, a: nat): (r: Option<(nat, nat)>)
    ensures r.Some? ==> r.value.0 <= a && SplitAt(s, i, r.value.0, r.value.1)
    ensures r.Some? ==> forall d' :: r.value.1 < d' ==> !TailAt(s, r.value.0, d')
    ensures r.Some? ==> forall a', d' :: r.value.0 < a' <= a ==> !SplitAt(s, i, a', d')
    ensures r.None? ==> forall a', d' :: a' <= a ==> !SplitAt(s, i, a', d')
  {
    var tail := LastTail(s, a, |s|);
    if AnyRun(s, i + 18, a) && tail.Some? then Some((a, tail.value))
    else if a == 0 then None
    else LastSplit(s, i, a - 1)
  }

  /** The leftmost start at or after `i`, with the greedy split of its match. */
  function FindHeaderFrom(s: string, i: nat): (r: Option<HeaderMatch>)
    requires i <= |s|
    ensures r.Some? ==> i <= r.value.start && HeaderAt(s, r.value.start, r.value.split, r.value.last)
    ensures r.Some? ==> forall i', a, d :: i <= i' < r.value.start ==> !HeaderAt(s, i', a, d)
    ensures r.Some? ==> forall a, d :: r.value.split < a ==> !HeaderAt(s, r.value.start, a, d)
    ensures r.Some? ==> forall d :: r.value.last < d ==> !TailAt(s, r.value.split, d)
    ensures r.None? ==> forall i', a, d :: i <= i' ==> !HeaderAt(s, i', a, d)
    decreases |s| - i
  {
    var split := if HeadAt(s, i) then LastSplit(s, i, |s|) else None;
    if split.Some? then Some(HeaderMatch(i, split.value.0, split.value.1))
    else if i == |s| then None
    else FindHeaderFrom(s, i + 1)
  }

  /** `text.match(/Cardápio de \d{2} de .+ a (\d{2}) de (.+) de (\d{4})/)`. */
  function FindHeader(s: string): (r: Option<HeaderMatch>)
    ensures r.Some? ==> IsRegexMatch(s, r.value)
    ensures r.None? ==> forall i, a, d :: !HeaderAt(s, i, a, d)
  {
    FindHeaderFrom(s, 0)
  }

  /** The greedy leftmost match is unique, so the captures are determined by the text. */
  lemma RegexMatchUnique(s: string, m1: HeaderMatch, m2: HeaderMatch)
    requires IsRegexMatch(s, m1) && IsRegexMatch(s, m2)
    ensures m1 == m2
  {
  }

  /** The end date of the week that a title line names, or `None` where the
      line does not match. An unknown month name gives `monthMapping[name]
      === undefined` and so an invalid date. */
  function EndDateOf(title: string): (r: Option<Date>)
    ensures r.None? <==> forall i, a, d :: !HeaderAt(title, i, a, d)
  {
    match FindHeader(title)
    case None => None
    case Some(m) =>
      var day := NumberOf(title[m.split + 3..m.split + 5]);
      var month := title[m.split + 9..m.last];
      var year := NumberOf(title[m.last + 4..m.last + 8]);
      if month in MonthMapping then
        MonthMappingIsBijection();
        Some(Day(Serial(JsDateYear(year), MonthMapping[month], day)))
      else Some(InvalidDate)
  }

  // ----- a title as the CCA menu prints it -----

  /** "Cardápio de DD de ": a title up to its first `.+`. */
  function TitleHead(first: nat): string {
    "Cardápio de " + Digits(first, 2) + " de "
  }

  /** " a DD de MONTH de YYYY": a title from its ` a ` on. */
  function TitleTail(day: nat, month: string, year: nat): string {
    " a " + Digits(day, 2) + " de " + month + " de " + Digits(year, 4)
  }

  /** A month name the captures can hold: on one line, without digits. */
  predicate IsMonthWord(month: string) {
    month != "" && forall k :: 0 <= k < |month| ==> !IsLineTerminator(month[k]) && !IsDigit(month[k])
  }

  /** Any text after a title head leaves the head in place. */
  lemma HeadOfTitle(first: nat, rest: string)
    ensures HeadAt(TitleHead(first) + rest, 0)
  {
    var s := TitleHead(first) + rest;
    var dd := Digits(first, 2);
    assert s[0..12] == "Cardápio de ";
    assert s[12] == dd[0] && s[13] == dd[1];
    assert s[14..18] == " de ";
  }

  /** The pieces of a title tail: ` a DD de `, the month name, ` de YYYY`. */
  lemma TailPieces(day: nat, month: string, year: nat)
    ensures TitleTail(day, month, year) == (" a " + Digits(day, 2) + " de ") + month + (" de " + Digits(year, 4))
  {
  }

  /** A title tail has its ` a ` first and its last ` de ` before the year, and
      no digit between its day and its year. */
  lemma TailOfTitle(day: nat, month: string, year: nat)
    requires IsMonthWord(month)
    ensures var t := TitleTail(day, month, year); var n := |month|;
      && |t| == 17 + n && TailAt(t, 0, 9 + n)
      && t[3..5] == Digits(day, 2) && t[9..9 + n] == month && t[13 + n..] == Digits(year, 4)
      && forall k :: 5 <= k < 9 + n ==> !IsDigit(t[k])
  {
    var n := |month|;
    var dd := Digits(day, 2);
    var yyyy := Digits(year, 4);
    var x := " a " + dd + " de ";
    var y := " de " + yyyy;
    var t := TitleTail(day, month, year);
    TailPieces(day, month, year);
    assert t == x + month + y;
    assert |x| == 9 && x[..3] == " a " && x[3..5] == dd && x[5..] == " de ";
    assert |y| == 8 && y[..4] == " de " && y[4..] == yyyy;
    assert t[..9] == x && t[9..9 + n] == month && t[9 + n..] == y;
    assert t[0..3] == " a " && t[3..5] == dd && t[5..9] == " de ";
    assert t[9 + n..13 + n] == " de " && t[13 + n..] == yyyy;
    assert forall k :: 9 <= k < 9 + n ==> t[k] == month[k - 9];
  }

  /** Text in front of a tail moves it along. */
  lemma ShiftTail(p: string, t: string, a: int, d: int)
    requires TailAt(t, a, d)
    ensures TailAt(p + t, |p| + a, |p| + d)
  {
    var s := p + t;
    assert forall k :: 0 <= k < |t| ==> s[|p| + k] == t[k];
    assert s[|p| + a..|p| + a + 3] == t[a..a + 3];
    assert s[|p| + a + 5..|p| + a + 9] == t[a + 5..a + 9];
    assert s[|p| + d..|p| + d + 4] == t[d..d + 4];
  }

  /** The captures of a title that matches from its start and ends with its
      year, with no digit between its day and its year, are its last day,
      month name and year. */
  lemma EndDateOfMatch(s: string, a: nat, last: nat)
    requires HeaderAt(s, 0, a, last) && |s| == last + 8
    requires forall k :: a + 5 <= k < last ==> !IsDigit(s[k])
    ensures FindHeader(s) == Some(HeaderMatch(0, a, last))
  {
    var m := HeaderMatch(0, a, last);
    forall a', d | a < a' ensures !TailAt(s, a', d) {
      if a' + 4 < last {
        assert !IsDigit(s[a' + 4]);
      }
    }
    assert IsRegexMatch(s, m);
    RegexMatchUnique(s, m, FindHeader(s).value);
  }

  /** A title head and free text on one line start a match: the first `.+`
      can run over the free text. */
  lemma TitleStart(first: nat, text: string, rest: string)
    requires text != [] && forall k :: 0 <= k < |text| ==> !IsLineTerminator(text[k])
    ensures HeadAt(TitleHead(first) + text + rest, 0)
    ensures AnyRun(TitleHead(first) + text + rest, 18, 18 + |text|)
  {
    var s := TitleHead(first) + text + rest;
    assert s == TitleHead(first) + (text + rest);
    HeadOfTitle(first, text + rest);
    assert forall k :: 18 <= k < 18 + |text| ==> s[k] == text[k - 18];
  }

  /** A title tail after any text ends the text with its ` a `, ends with its
      year, and has no digit between its day and its year. */
  lemma TailAfter(p: string, day: nat, month: string, year: nat)
    requires IsMonthWord(month)
    ensures var s := p + TitleTail(day, month, year); var a := |p|; var last := a + 9 + |month|;
      && TailAt(s, a, last) && |s| == last + 8
      && forall k :: a + 5 <= k < last ==> !IsDigit(s[k])
  {
    var t := TitleTail(day, month, year);
    var s := p + t;
    var n := |month|;
    var a := |p|;
    TailOfTitle(day, month, year);
    assert TailAt(s, a, a + 9 + n) by {
      ShiftTail(p, t, 0, 9 + n);
    }
    assert forall k :: a + 5 <= k < a + 9 + n ==> !IsDigit(s[k]) by {
      assert forall k :: 5 <= k < 9 + n ==> s[a + k] == t[k];
    }
  }

  /** A title of this form matches from its start with its ` a ` right after
      the free text, ends with its year, and has no digit between its day and
      its year. */
  lemma TitleMatches(first: nat, text: string, day: nat, month: string, year: nat)
    requires text != [] && forall k :: 0 <= k < |text| ==> !IsLineTerminator(text[k])
    requires IsMonthWord(month)
    ensures var s := TitleHead(first) + text + TitleTail(day, month, year);
      var a := 18 + |text|; var last := a + 9 + |month|;
      && HeaderAt(s, 0, a, last) && |s| == last + 8
      && forall k :: a + 5 <= k < last ==> !IsDigit(s[k])
  {
    TitleStart(first, text, TitleTail(day, month, year));
    TailAfter(TitleHead(first) + text, day, month, year);
  }

  /** The day, month name and year of a title of this form sit where the
      captures of its match are. */
  lemma TitleFields(first: nat, text: string, day: nat, month: string, year: nat)
    requires IsMonthWord(month)
    ensures var s := TitleHead(first) + text + TitleTail(day, month, year);
      var a := 18 + |text|; var last := a + 9 + |month|;
      && |s| == last + 8
      && s[a + 3..a + 5] == Digits(day, 2) && s[a + 9..last] == month && s[last + 4..last + 8] == Digits(year, 4)
  {
    var p := TitleHead(first) + text;
    var t := TitleTail(day, month, year);
    var n := |month|;
    TailOfTitle(day, month, year);
    ShiftSlice(p, t, 3, 5);
    ShiftSlice(p, t, 9, 9 + n);
    ShiftSlice(p, t, 13 + n, 17 + n);
  }

  /** The end date of any title of this form: the day, month name and year
      after its last ` a `, as `new Date(year, monthMapping[month], day)`
      builds it; a month name outside the table gives an invalid date. */
  lemma EndDateOfTitle(first: nat, text: string, day: nat, month: string, year: nat)
    requires day < 100 && year < 10000
    requires text != [] && forall k :: 0 <= k < |text| ==> !IsLineTerminator(text[k])
    requires IsMonthWord(month)
    ensures EndDateOf(TitleHead(first) + text + TitleTail(day, month, year)) ==
      if month in MonthMapping then Some(Day(Serial(JsDateYear(year), MonthMapping[month], day)))
      else Some(InvalidDate)
  {
    var s := TitleHead(first) + text + TitleTail(day, month, year);
    var a := 18 + |text|;
    var last := a + 9 + |month|;
    TitleMatches(first, text, day, month, year);
    TitleFields(first, text, day, month, year);
    EndDateOfMatch(s, a, last);
    FieldNumbers(day, year);
    EndDateOfFields(s, HeaderMatch(0, a, last), day, month, year);
  }

  /** `parseInt` reads the two-digit day and the four-digit year back. */
  lemma FieldNumbers(day: nat, year: nat)
    requires day < 100 && year < 10000
    ensures NumberOf(Digits(day, 2)) == day && NumberOf(Digits(year, 4)) == year
  {
    assert Pow10(2) == 100;
    NumberOfDigits(day, 2);
    assert Pow10(4) == 10000;
    NumberOfDigits(year, 4);
  }

  /** The end date of a title is read from the fields of the match found. */
  lemma EndDateOfFields(s: string, m: HeaderMatch, day: nat, month: string, year: nat)
    requires FindHeader(s) == Some(m) && m.split + 9 <= m.last && m.last + 8 <= |s|
    requires NumberOf(s[m.split + 3..m.split + 5]) == day && NumberOf(s[m.last + 4..m.last + 8]) == year
    requires s[m.split + 9..m.last] == month
    ensures EndDateOf(s) ==
      if month in MonthMapping then Some(Day(Serial(JsDateYear(year), MonthMapping[month], day)))
      else Some(InvalidDate)
  {
  }

  /** "Cardápio de 05 de junho a 09 de junho de 2023". */
  const ExampleTitle := "Cardápio de " + "05" + " de " + "junho" + " a " + "09" + " de " + "junho" + " de " + "2023"

  /** The example title is a title of the general form. */
  lemma ExampleTitleForm()
    ensures ExampleTitle == TitleHead(5) + "junho" + TitleTail(9, "junho", 2023)
    ensures IsMonthWord("junho")
  {
    assert Digits(5, 2) == "05" && Digits(9, 2) == "09" && Digits(2023, 4) == "2023";
  }

  /** The match the search reports for the example title: from its start, its
      ` a ` at 23 and its last ` de ` at 37. */
  lemma ExampleTitleFound()
    ensures FindHeader(ExampleTitle) == Some(HeaderMatch(0, 23, 37))
  {
    ExampleTitleForm();
    TitleMatches(5, "junho", 9, "junho", 2023);
    EndDateOfMatch(ExampleTitle, 23, 37);
  }

  /** The example title names 9 June 2023 as the end of its week. */
  lemma EndDateExample()
    ensures EndDateOf(ExampleTitle) == Some(Day(Serial(2023, 5, 9)))
  {
    ExampleTitleForm();
    EndDateOfTitle(5, "junho", 9, "junho", 2023);
    assert "junho" in MonthMapping && MonthMapping["junho"] == 5;
  }
}
