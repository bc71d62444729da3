/** The four ways the parsers read a date out of cell text with moment: the
    fixed pattern each one looks for, where its fields sit, and how the year is
    completed. Each reader is paired with the text that writes a date in its
    pattern, and reading that text gives the date back. */
module DateText {
  import opened Common
  import opened Text
  import opened Calendar

  /** The number written in `s[i..i + n]`. */
  function FieldAt(s: string, i: nat, n: nat): nat
    requires i + n <= |s|
  {
    NumberOf(s[i..i + n])
  }

  /** A field written with `Digits` is read back as its number. */
  lemma FieldOfDigits(s: string, i: nat, n: nat, width: nat)
    requires i + width <= |s| && s[i..i + width] == Digits(n, width) && n < Pow10(width)
    ensures FieldAt(s, i, width) == n
    ensures forall k :: i <= k < i + width ==> IsDigit(s[k])
  {
    NumberOfDigits(n, width);
    assert forall k :: i <= k < i + width ==> s[k] == Digits(n, width)[k - i];
  }

  // ----- DD.MM.yyyy on the first word (Trindade) -----

  /** `moment(cell.split(' ')[0], 'DD.MM.yyyy')`. */
  function DottedDate(cell: string): (r: Date)
    ensures r.Day? ==> MatchesAt(FirstToken(cell), 0, "##.##.####")
  {
    var token := FirstToken(cell);
    if MatchesAt(token, 0, "##.##.####") then CivilDate(FieldAt(token, 6, 4), FieldAt(token, 3, 2), FieldAt(token, 0, 2))
    else InvalidDate
  }

  function DottedText(d: nat, m: nat, y: nat): string {
    Digits(d, 2) + "." + Digits(m, 2) + "." + Digits(y, 4)
  }

  /** A cell that starts with a date written as `DD.MM.YYYY` and a space is read as that date. */
  lemma DottedDateRoundTrip(d: nat, m: nat, y: nat, rest: string)
    requires d < 100 && m < 100 && y < 10000
    ensures DottedDate(DottedText(d, m, y) + " " + rest) == CivilDate(y, m, d)
  {
    var t := DottedText(d, m, y);
    assert MatchesAt(t, 0, "##.##.####") && FieldAt(t, 0, 2) == d && FieldAt(t, 3, 2) == m && FieldAt(t, 6, 4) == y by {
      assert |t| == 10 && t[2] == '.' && t[5] == '.';
      FieldOfDigits(t, 0, d, 2);
      FieldOfDigits(t, 3, m, 2);
      FieldOfDigits(t, 6, y, 4);
    }
    assert FirstToken(t + " " + rest) == t by {
      assert forall k :: 0 <= k < |t| ==> IsDigit(t[k]) || t[k] == '.';
      FirstTokenOf(t, rest);
    }
  }

  // ----- DD-MM-YY anywhere in the cell (Araranguá) -----

  /** `moment(cell, 'DD-MM-YY')` on a cell whose text before the date holds no
      digit: the fields of the first `DD-MM-YY` in the cell, with the two-digit
      year completed as moment does. */
  function ShortDate(cell: string): (r: Date)
    ensures r.Day? ==> FindTemplate(cell, "##-##-##").Some?
  {
    match FindTemplate(cell, "##-##-##")
    case None => InvalidDate
    case Some(p) => CivilDate(MomentTwoDigitYear(FieldAt(cell, p + 6, 2)), FieldAt(cell, p + 3, 2), FieldAt(cell, p, 2))
  }

  function ShortText(d: nat, m: nat, yy: nat): string {
    Digits(d, 2) + "-" + Digits(m, 2) + "-" + Digits(yy, 2)
  }

  /** A date written as `DD-MM-YY` after text without digits is read back, its
      year between 1969 and 2068. */
  lemma ShortDateRoundTrip(lead: string, d: nat, m: nat, yy: nat)
    requires d < 100 && m < 100 && yy < 100
    requires forall k :: 0 <= k < |lead| ==> !IsDigit(lead[k])
    ensures ShortDate(lead + ShortText(d, m, yy)) == CivilDate(MomentTwoDigitYear(yy), m, d)
  {
    var t := ShortText(d, m, yy);
    var s := lead + t;
    var p := |lead|;
    assert |t| == 8 && t[2] == '-' && t[5] == '-';
    assert s[p..p + 8] == t;
    FieldOfDigits(s, p, d, 2);
    FieldOfDigits(s, p + 3, m, 2);
    FieldOfDigits(s, p + 6, yy, 2);
    FieldOfDigits(t, 0, d, 2);
    FieldOfDigits(t, 3, m, 2);
    FieldOfDigits(t, 6, yy, 2);
    assert MatchesAt(t, 0, "##-##-##");
    MatchesAfter(lead, t, "##-##-##");
    forall j | 0 <= j < p ensures !MatchesAt(s, j, "##-##-##") {
      assert s[j] == lead[j];
      NoMatchAtNonDigit(s, j, "##-##-##");
    }
    FindTemplateFinds(s, "##-##-##", p);
  }

  // ----- DD/MM anywhere in the cell, year given (Curitibanos) -----

  /** `cell.match(/(\d{2})\/(\d{2})/g)` and `moment(match, 'DD/MM')`: `None` where
      the pattern does not occur; otherwise the first occurrence, in `year`
      (moment's default, the current year). */
  function DayMonthDate(cell: string, year: int): (r: Option<Date>)
    ensures r.None? <==> forall j :: !MatchesAt(cell, j, "##/##")
  {
    match FindTemplate(cell, "##/##")
    case None => None
    case Some(p) => Some(CivilDate(year, FieldAt(cell, p + 3, 2), FieldAt(cell, p, 2)))
  }

  function DayMonthText(d: nat, m: nat): string {
    Digits(d, 2) + "/" + Digits(m, 2)
  }

  /** A date written as `DD/MM` after text without digits is read back in the given year. */
  lemma DayMonthDateRoundTrip(lead: string, d: nat, m: nat, year: int)
    requires d < 100 && m < 100
    requires forall k :: 0 <= k < |lead| ==> !IsDigit(lead[k])
    ensures DayMonthDate(lead + DayMonthText(d, m), year) == Some(CivilDate(year, m, d))
  {
    var t := DayMonthText(d, m);
    var s := lead + t;
    var p := |lead|;
    assert |t| == 5 && t[2] == '/';
    assert s[p..p + 5] == t;
    FieldOfDigits(s, p, d, 2);
    FieldOfDigits(s, p + 3, m, 2);
    FieldOfDigits(t, 0, d, 2);
    FieldOfDigits(t, 3, m, 2);
    assert MatchesAt(t, 0, "##/##");
    MatchesAfter(lead, t, "##/##");
    forall j | 0 <= j < p ensures !MatchesAt(s, j, "##/##") {
      assert s[j] == lead[j];
      NoMatchAtNonDigit(s, j, "##/##");
    }
    FindTemplateFinds(s, "##/##", p);
  }

  // ----- DD/MM/YYYY anywhere in the cell (Joinville) -----

  /** `cell.match(/\d{2}\/\d{2}\/\d{4}/g)` and `moment(match, 'DD/MM/YYYY')`:
      `None` where the pattern does not occur; otherwise the first occurrence. */
  function SlashedDate(cell: string): (r: Option<Date>)
    ensures r.None? <==> forall j :: !MatchesAt(cell, j, "##/##/####")
  {
    match FindTemplate(cell, "##/##/####")
    case None => None
    case Some(p) => Some(CivilDate(FieldAt(cell, p + 6, 4), FieldAt(cell, p + 3, 2), FieldAt(cell, p, 2)))
  }

  function SlashedText(d: nat, m: nat, y: nat): string {
    Digits(d, 2) + "/" + Digits(m, 2) + "/" + Digits(y, 4)
  }

  /** A date written as `DD/MM/YYYY` after text without digits is read back. */
  lemma SlashedDateRoundTrip(lead: string, d: nat, m: nat, y: nat)
    requires d < 100 && m < 100 && y < 10000
    requires forall k :: 0 <= k < |lead| ==> !IsDigit(lead[k])
    ensures SlashedDate(lead + SlashedText(d, m, y)) == Some(CivilDate(y, m, d))
  {
    var t := SlashedText(d, m, y);
    var s := lead + t;
    var p := |lead|;
    assert |t| == 10 && t[2] == '/' && t[5] == '/';
    assert s[p..p + 10] == t;
    FieldOfDigits(s, p, d, 2);
    FieldOfDigits(s, p + 3, m, 2);
    FieldOfDigits(s, p + 6, y, 4);
    FieldOfDigits(t, 0, d, 2);
    FieldOfDigits(t, 3, m, 2);
    FieldOfDigits(t, 6, y, 4);
    assert MatchesAt(t, 0, "##/##/####");
    MatchesAfter(lead, t, "##/##/####");
    forall j | 0 <= j < p ensures !MatchesAt(s, j, "##/##/####") {
      assert s[j] == lead[j];
      NoMatchAtNonDigit(s, j, "##/##/####");
    }
    FindTemplateFinds(s, "##/##/####", p);
  }
}
