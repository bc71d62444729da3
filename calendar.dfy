/** Calendar dates as serial day numbers, with the two ways the parsers build
    them: a strict reading of day, month and year (an out-of-range field gives
    an invalid date) and the lenient `new Date(year, month, day)` (a day past
    the end of the month rolls into the next). */
module Calendar {

  /** A calendar day, or JavaScript's Invalid Date. Time of day is not kept.
      Every parser adds three hours to the moment it builds, which keeps the
      stored day from moving under a time-zone conversion. That moment is
      midnight, except on a CCA page dated from the current time, where the
      day kept is the day of the current time plus those three hours. */
  datatype Date = Day(serial: int) | InvalidDate

  /** `moment(date).add(days, 'days')`: an invalid date stays invalid. */
  function AddDays(date: Date, days: int): (r: Date)
    ensures r.Day? <==> date.Day?
    ensures r.Day? ==> r.serial - date.serial == days
  {
    match date
    case Day(n) => Day(n + days)
    case InvalidDate => InvalidDate
  }

  /** Adding days in two steps is adding their sum. */
  lemma AddDaysTwice(date: Date, a: int, b: int)
    ensures AddDays(AddDays(date, a), b) == AddDays(date, a + b)
  {
  }

  predicate IsLeapYear(y: int) {
    y % 4 == 0 && (y % 100 != 0 || y % 400 == 0)
  }

  /** Length of month `m` (0 = January). */
  function DaysInMonth(y: int, m: int): int
    requires 0 <= m < 12
  {
    if m == 1 then (if IsLeapYear(y) then 29 else 28)
    else if m == 3 || m == 5 || m == 8 || m == 10 then 30
    else 31
  }

  function DaysBeforeMonth(y: int, m: int): int
    requires 0 <= m <= 12
  {
    if m == 0 then 0 else DaysBeforeMonth(y, m - 1) + DaysInMonth(y, m - 1)
  }

  /** Number of leap years from year 1 to year `y` (negative before year 1). */
  function LeapYearsThrough(y: int): int {
    y / 4 - y / 100 + y / 400
  }

  /** Serial number of 1 January of year `y` (proleptic Gregorian calendar). */
  function YearStart(y: int): int {
    365 * (y - 1) + LeapYearsThrough(y - 1)
  }

  /** Serial number of day `d` of month `m` (0 = January) of year `y`. Any `d`
      is accepted: a day outside the month counts on from the month's first day. */
  function Serial(y: int, m: int, d: int): (r: int)
    requires 0 <= m < 12
    ensures 1 <= d <= DaysInMonth(y, m) ==> YearStart(y) <= r < YearStart(y + 1)
  {
    DayOfYearBounds(y, m, d);
    YearStart(y) + DaysBeforeMonth(y, m) + d - 1
  }

  /** A day of a month counts from 0 to one less than the length of its year,
      which is the distance from the year's first day to the next year's. */
  lemma DayOfYearBounds(y: int, m: int, d: int)
    requires 0 <= m < 12
    ensures 1 <= d <= DaysInMonth(y, m) ==>
      0 <= DaysBeforeMonth(y, m) + d - 1 < YearStart(y + 1) - YearStart(y)
  {
    LeapStep(y);
    YearLength(y);
    MonthsBeforeNonNegative(y, m);
    MonthsBeforeYearEnd(y, m + 1);
    assert YearStart(y + 1) - YearStart(y) == 365 + LeapYearsThrough(y) - LeapYearsThrough(y - 1);
  }

  /** The months before `m` take no more than the whole year. */
  lemma {:induction false} MonthsBeforeYearEnd(y: int, m: int)
    requires 0 <= m <= 12
    ensures DaysBeforeMonth(y, m) <= DaysBeforeMonth(y, 12)
    decreases 12 - m
  {
    if m < 12 {
      MonthsBeforeYearEnd(y, m + 1);
    }
  }

  lemma {:induction false} MonthsBeforeNonNegative(y: int, m: int)
    requires 0 <= m <= 12
    ensures 0 <= DaysBeforeMonth(y, m)
  {
    if m > 0 {
      MonthsBeforeNonNegative(y, m - 1);
    }
  }

  /** Moving from year `y - 1` to `y`, each of the floor quotients in the
      leap-year count steps up exactly when `y` is a multiple of the divisor. */
  lemma QuotientSteps(y: int)
    ensures y / 4 - (y - 1) / 4 == if y % 4 == 0 then 1 else 0
    ensures y / 100 - (y - 1) / 100 == if y % 100 == 0 then 1 else 0
    ensures y / 400 - (y - 1) / 400 == if y % 400 == 0 then 1 else 0
  {
    if y % 4 == 0 { assert y - 1 == 4 * (y / 4 - 1) + 3; }
    else { assert y - 1 == 4 * (y / 4) + (y % 4 - 1); }
    if y % 100 == 0 { assert y - 1 == 100 * (y / 100 - 1) + 99; }
    else { assert y - 1 == 100 * (y / 100) + (y % 100 - 1); }
    if y % 400 == 0 { assert y - 1 == 400 * (y / 400 - 1) + 399; }
    else { assert y - 1 == 400 * (y / 400) + (y % 400 - 1); }
  }

  /** A multiple of 400 is a multiple of 100, and a multiple of 100 is a
      multiple of 4. */
  lemma DivisorChain(y: int)
    ensures y % 400 == 0 ==> y % 100 == 0
    ensures y % 100 == 0 ==> y % 4 == 0
  {
    if y % 400 == 0 {
      var k := 4 * (y / 400);
      assert y == 100 * k;
      MultipleOfHundred(k);
    }
    if y % 100 == 0 {
      var k := 25 * (y / 100);
      assert y == 4 * k;
      MultipleOfFour(k);
    }
  }

  lemma MultipleOfHundred(k: int)
    ensures (100 * k) % 100 == 0
  {
  }

  lemma MultipleOfFour(k: int)
    ensures (4 * k) % 4 == 0
  {
  }

  /** Each year adds one to the leap-year count exactly when it is a leap year. */
  lemma LeapStep(y: int)
    ensures LeapYearsThrough(y) - LeapYearsThrough(y - 1) == if IsLeapYear(y) then 1 else 0
  {
    QuotientSteps(y);
    DivisorChain(y);
    var fours := y / 4 - (y - 1) / 4;
    var hundreds := y / 100 - (y - 1) / 100;
    var four_hundreds := y / 400 - (y - 1) / 400;
    assert LeapYearsThrough(y) - LeapYearsThrough(y - 1) == fours - hundreds + four_hundreds;
  }

  /** The twelve months add up to the length of the year. */
  lemma YearLength(y: int)
    ensures DaysBeforeMonth(y, 12) == if IsLeapYear(y) then 366 else 365
  {
    var feb := DaysInMonth(y, 1);
    assert DaysBeforeMonth(y, 1) == 31;
    assert DaysBeforeMonth(y, 2) == 31 + feb;
    assert DaysBeforeMonth(y, 3) == 62 + feb;
    assert DaysBeforeMonth(y, 4) == 92 + feb;
    assert DaysBeforeMonth(y, 5) == 123 + feb;
    assert DaysBeforeMonth(y, 6) == 153 + feb;
    assert DaysBeforeMonth(y, 7) == 184 + feb;
    assert DaysBeforeMonth(y, 8) == 215 + feb;
    assert DaysBeforeMonth(y, 9) == 245 + feb;
    assert DaysBeforeMonth(y, 10) == 276 + feb;
    assert DaysBeforeMonth(y, 11) == 306 + feb;
    assert DaysBeforeMonth(y, 12) == 337 + feb;
  }

  /** A day counted past the end of a month is the same day as the one counted
      from the first of the next month, across the end of the year too: the
      rollover `new Date(year, month, day)` performs. */
  lemma Rollover(y: int, m: int, d: int)
    requires 0 <= m < 12
    ensures m < 11 ==> Serial(y, m, DaysInMonth(y, m) + d) == Serial(y, m + 1, d)
    ensures m == 11 ==> Serial(y, m, DaysInMonth(y, m) + d) == Serial(y + 1, 0, d)
  {
    if m == 11 {
      LeapStep(y);
      YearLength(y);
    }
  }

  /** A date read strictly, as moment reads a day, a month (1 to 12) and a year
      from text: a field out of range gives an invalid date. */
  function CivilDate(y: int, month: int, d: int): (r: Date)
    ensures r.Day? <==> 1 <= month <= 12 && 1 <= d <= DaysInMonth(y, month - 1)
    ensures r.Day? ==> YearStart(y) <= r.serial < YearStart(y + 1)
  {
    if 1 <= month <= 12 && 1 <= d <= DaysInMonth(y, month - 1) then Day(Serial(y, month - 1, d))
    else InvalidDate
  }

  /** The day after a valid date, one `add(1, 'days')` on, is the next day of
      its month, the first of the next month, or the first of January of the
      next year. */
  lemma NextCivilDate(y: int, month: int, d: int)
    requires CivilDate(y, month, d).Day?
    ensures AddDays(CivilDate(y, month, d), 1) ==
      if d < DaysInMonth(y, month - 1) then CivilDate(y, month, d + 1)
      else if month < 12 then CivilDate(y, month + 1, 1)
      else CivilDate(y + 1, 1, 1)
  {
    if d == DaysInMonth(y, month - 1) {
      Rollover(y, month - 1, 1);
    }
  }

  /** moment's reading of a two-digit year (`YY`): 69 to 99 are taken as 1969
      to 1999, 00 to 68 as 2000 to 2068. */
  function MomentTwoDigitYear(yy: nat): (y: int)
    ensures yy < 100 ==> 1969 <= y <= 2068 && y % 100 == yy
  {
    yy + (if yy > 68 then 1900 else 2000)
  }

  /** `new Date(year, …)` takes a year from 0 to 99 as 1900 to 1999. */
  function JsDateYear(y: int): (r: int)
    ensures 0 <= y <= 99 ==> 1900 <= r <= 1999 && r % 100 == y
    ensures (y < 0 || 99 < y) ==> r == y
  {
    if 0 <= y <= 99 then 1900 + y else y
  }

  /** The Portuguese month names, in calendar order. */
  const MonthNames: seq<string> := [
    "janeiro", "fevereiro", "março", "abril", "maio", "junho",
    "julho", "agosto", "setembro", "outubro", "novembro", "dezembro"
  ]

  /** The month-name table of the CCA header: name to 0-based month index. */
  const MonthMapping: map<string, int> := map[
    "janeiro" := 0, "fevereiro" := 1, "março" := 2, "abril" := 3,
    "maio" := 4, "junho" := 5, "julho" := 6, "agosto" := 7,
    "setembro" := 8, "outubro" := 9, "novembro" := 10, "dezembro" := 11
  ]

  /** The table is a bijection between the twelve month names and 0 to 11. */
  lemma MonthMappingIsBijection()
    ensures forall name :: name in MonthMapping ==> 0 <= MonthMapping[name] < 12 && MonthNames[MonthMapping[name]] == name
    ensures forall m :: 0 <= m < 12 ==> MonthNames[m] in MonthMapping && MonthMapping[MonthNames[m]] == m
  {
    forall m | 0 <= m < 12 ensures MonthNames[m] in MonthMapping && MonthMapping[MonthNames[m]] == m {
      if m < 6 {
        assert m == 0 || m == 1 || m == 2 || m == 3 || m == 4 || m == 5;
      } else {
        assert m == 6 || m == 7 || m == 8 || m == 9 || m == 10 || m == 11;
      }
    }
    forall name | name in MonthMapping ensures 0 <= MonthMapping[name] < 12 && MonthNames[MonthMapping[name]] == name {
      assert name in MonthMapping.Keys;
    }
  }
}
