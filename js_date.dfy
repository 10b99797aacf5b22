/**
 * The calendar arithmetic of the JavaScript `Date` object, as the widget uses it:
 * the proleptic Gregorian calendar of ECMA-262 (section 21.4.1, "Time Values and
 * Time Range", with the Day, DayFromYear, MonthFromTime, DateFromTime, WeekDay and
 * MakeDay definitions) and the local-time constructor `new Date(year, month, day)`
 * (section 21.4.2.1). A date is a calendar triple with a zero-based month; the time
 * of day and the time zone play no part (a local construction read back locally is
 * the identity).
 */
module JsDate {

  /** A normalised month number, 0 = January .. 11 = December. */
  type Month = m: int | 0 <= m < 12

  /** A calendar date: full year, zero-based month, day of the month. */
  datatype Date = Date(year: int, month: Month, day: int)

  /** A year and a normalised month. */
  datatype YearMonth = YearMonth(year: int, month: Month)

  /** The Gregorian leap rule: divisible by 4, and not by 100 unless by 400. */
  predicate IsLeap(year: int) {
    year % 4 == 0 && (year % 100 != 0 || year % 400 == 0)
  }

  function DaysInYear(year: int): int {
    if IsLeap(year) then 366 else 365
  }

  /** April, June, September and November. */
  predicate IsThirtyDayMonth(month: Month) {
    month == 3 || month == 5 || month == 8 || month == 10
  }

  /** The length of a month: 31/30/28/29. */
  function DaysInMonth(year: int, month: Month): (n: int)
    ensures 28 <= n <= 31
  {
    if month == 1 then (if IsLeap(year) then 29 else 28)
    else if IsThirtyDayMonth(month) then 30
    else 31
  }

  /** A date that exists in the calendar. */
  predicate Valid(d: Date) {
    1 <= d.day <= DaysInMonth(d.year, d.month)
  }

  /** Days of the year that lie before the first of `month`. */
  function DaysBeforeMonth(year: int, month: Month): int {
    var common :=
      if month < 6 then
        (if month < 3 then (if month == 0 then 0 else if month == 1 then 31 else 59)
         else (if month == 3 then 90 else if month == 4 then 120 else 151))
      else
        (if month < 9 then (if month == 6 then 181 else if month == 7 then 212 else 243)
         else (if month == 9 then 273 else if month == 10 then 304 else 334));
    common + (if month >= 2 && IsLeap(year) then 1 else 0)
  }

  /** ECMA-262 DayFromYear: the day number of 1 January of `year` (0 is 1970-01-01). */
  function DayFromYear(year: int): int {
    365 * (year - 1970) + (year - 1969) / 4 - (year - 1901) / 100 + (year - 1601) / 400
  }

  /** The day number of a date, counted from 1970-01-01 (ECMA-262 Day(t)). */
  function DayNumber(d: Date): int {
    DayFromYear(d.year) + DaysBeforeMonth(d.year, d.month) + d.day - 1
  }

  /** The day number of the first of a month. */
  function FirstDayNumber(ym: YearMonth): int {
    DayNumber(Date(ym.year, ym.month, 1))
  }

  /** ECMA-262 WeekDay: 0 = Sunday .. 6 = Saturday; 1970-01-01 was a Thursday. */
  function Weekday(d: Date): (w: int)
    ensures 0 <= w < 7
  {
    (DayNumber(d) + 4) % 7
  }

  /** MakeDay steps for the month: a month outside 0..11 carries into the year. */
  function Normalized(year: int, month: int): (ym: YearMonth)
    ensures 12 * ym.year + ym.month == 12 * year + month
  {
    YearMonth(year + month / 12, month % 12)
  }

  /** The month after `ym`: January of the next year after December. */
  function Following(ym: YearMonth): YearMonth {
    if ym.month == 11 then YearMonth(ym.year + 1, 0) else YearMonth(ym.year, ym.month + 1)
  }

  /** The month before `ym`: December of the year before after January. */
  function Preceding(ym: YearMonth): YearMonth {
    if ym.month == 0 then YearMonth(ym.year - 1, 11) else YearMonth(ym.year, ym.month - 1)
  }

  /**
   * The date that `day` (any integer; 1 is the first) denotes counted from the month
   * `ym`: the overflow rule of MakeDay, carried out one month at a time.
   */
  function Carry(ym: YearMonth, day: int): (r: Date)
    ensures Valid(r)
    ensures 1 <= day <= DaysInMonth(ym.year, ym.month) ==> r == Date(ym.year, ym.month, day)
    decreases if day < 1 then 1 - day else 0, if day < 1 then 0 else day
  {
    if day < 1 then
      var p := Preceding(ym);
      Carry(p, day + DaysInMonth(p.year, p.month))
    else if day > DaysInMonth(ym.year, ym.month) then
      Carry(Following(ym), day - DaysInMonth(ym.year, ym.month))
    else
      Date(ym.year, ym.month, day)
  }

  /**
   * MakeDay(year, month, day): the month carries into the year, then the day into the
   * months. The result is a date that exists, and a day inside the normalised month is
   * kept as it is.
   */
  function Normalize(year: int, month: int, day: int): (r: Date)
    ensures var ym := Normalized(year, month);
      1 <= day <= DaysInMonth(ym.year, ym.month) ==> r == Date(ym.year, ym.month, day)
  {
    Carry(Normalized(year, month), day)
  }

  /** Section 21.4.2.1: the constructor reads a year in 0..99 as 1900 + year. */
  function CivilYear(year: int): (y: int)
    ensures 0 <= year <= 99 ==> 1900 <= y <= 1999 && y % 100 == year
    ensures !(0 <= year <= 99) ==> y == year
  {
    if 0 <= year <= 99 then 1900 + year else year
  }

  /**
   * `new Date(year, month, day)` read back in local time: a date that exists, which for a
   * day inside the normalised month is that day itself.
   */
  function NewDate(year: int, month: int, day: int): (r: Date)
    ensures var ym := Normalized(CivilYear(year), month);
      1 <= day <= DaysInMonth(ym.year, ym.month) ==> r == Date(ym.year, ym.month, day)
  {
    Normalize(CivilYear(year), month, day)
  }

  // ---------------------------------------------------------------------------
  // Arithmetic facts

  lemma DivModUnique(x: int, q: int, r: int)
    requires 0 <= r < 12 && x == 12 * q + r
    ensures x / 12 == q && x % 12 == r
  {
  }

  lemma NormalizedInRange(year: int, month: Month)
    ensures Normalized(year, month) == YearMonth(year, month)
  {
    DivModUnique(12 * year + month, year, month);
  }

  lemma FloorStep4(a: int)
    ensures (a + 1) / 4 - a / 4 == if (a + 1) % 4 == 0 then 1 else 0
  {
  }

  lemma FloorStep100(a: int)
    ensures (a + 1) / 100 - a / 100 == if (a + 1) % 100 == 0 then 1 else 0
  {
  }

  lemma FloorStep400(a: int)
    ensures (a + 1) / 400 - a / 400 == if (a + 1) % 400 == 0 then 1 else 0
  {
  }

  lemma ShiftedRemainders(year: int)
    ensures (year - 1968) % 4 == year % 4
    ensures (year - 1900) % 100 == year % 100
    ensures (year - 1600) % 400 == year % 400
  {
    var q4, q100, q400 := year / 4, year / 100, year / 400;
    assert year - 1968 == 4 * (q4 - 492) + year % 4;
    assert year - 1900 == 100 * (q100 - 19) + year % 100;
    assert year - 1600 == 400 * (q400 - 4) + year % 400;
  }

  lemma LeapDivisors(year: int)
    ensures year % 400 == 0 ==> year % 100 == 0
    ensures year % 100 == 0 ==> year % 4 == 0
  {
    if year % 400 == 0 {
      assert year == 400 * (year / 400);
      assert year == 100 * (4 * (year / 400));
    }
    if year % 100 == 0 {
      assert year == 100 * (year / 100);
      assert year == 4 * (25 * (year / 100));
    }
  }

  /** DayFromYear advances by the length of the year. */
  lemma YearStep(year: int)
    ensures DayFromYear(year + 1) == DayFromYear(year) + DaysInYear(year)
  {
    FloorStep4(year - 1969);
    FloorStep100(year - 1901);
    FloorStep400(year - 1601);
    ShiftedRemainders(year);
    LeapDivisors(year);
    var s4 := (year - 1968) / 4 - (year - 1969) / 4;
    var s100 := (year - 1900) / 100 - (year - 1901) / 100;
    var s400 := (year - 1600) / 400 - (year - 1601) / 400;
    assert DayFromYear(year + 1) == DayFromYear(year) + 365 + s4 - s100 + s400;
  }

  /** The days before month m + 1 are those before m and the days of m. */
  lemma DaysBeforeMonthStep(year: int, m: Month)
    requires m < 11
    ensures DaysBeforeMonth(year, m + 1) == DaysBeforeMonth(year, m) + DaysInMonth(year, m)
  {
  }

  /** A later month starts after the whole of an earlier one. */
  lemma {:induction false} DaysBeforeMonthGap(year: int, m1: Month, m2: Month)
    requires m1 < m2
    ensures DaysBeforeMonth(year, m1) + DaysInMonth(year, m1) <= DaysBeforeMonth(year, m2)
    decreases m2 - m1
  {
    DaysBeforeMonthStep(year, m2 - 1);
    if m1 < m2 - 1 {
      DaysBeforeMonthGap(year, m1, m2 - 1);
    }
  }

  /** The lengths of the months by the leap rule. */
  lemma MonthLengths(year: int, month: Month)
    ensures DaysInMonth(year, month) == 29 <==> month == 1 && IsLeap(year)
    ensures DaysInMonth(year, month) == 28 <==> month == 1 && !IsLeap(year)
    ensures DaysInMonth(year, month) == 30 <==> IsThirtyDayMonth(month)
    ensures DaysInMonth(year, month) == 31 <==> month != 1 && !IsThirtyDayMonth(month)
  {
  }

  /** The first of the following month lies `DaysInMonth` days after the first of this one. */
  lemma MonthStep(ym: YearMonth)
    ensures FirstDayNumber(Following(ym)) == FirstDayNumber(ym) + DaysInMonth(ym.year, ym.month)
  {
    if ym.month == 11 {
      YearStep(ym.year);
      assert DaysBeforeMonth(ym.year, 11) + 31 == DaysInYear(ym.year);
    } else {
      DaysBeforeMonthStep(ym.year, ym.month);
    }
  }

  /** Stepping back from the month after `month` gives `month` itself. */
  lemma PrecedingOfNext(year: int, month: int)
    ensures Preceding(Normalized(year, month + 1)) == Normalized(year, month)
  {
    var n := Normalized(year, month + 1);
    var p := Preceding(n);
    DivModUnique(12 * year + month, p.year, p.month);
  }

  /** Carrying `day` from `ym` lands `day - 1` days after the first of `ym`. */
  lemma {:induction false} CarryDayNumber(ym: YearMonth, day: int)
    ensures DayNumber(Carry(ym, day)) == FirstDayNumber(ym) + day - 1
    decreases if day < 1 then 1 - day else 0, if day < 1 then 0 else day
  {
    if day < 1 {
      var p := Preceding(ym);
      var n := DaysInMonth(p.year, p.month);
      CarryDayNumber(p, day + n);
      CarryBack(ym, day);
      MonthStep(p);
      assert Following(p) == ym;
    } else if day > DaysInMonth(ym.year, ym.month) {
      var n := DaysInMonth(ym.year, ym.month);
      CarryDayNumber(Following(ym), day - n);
      CarryForward(ym, day);
      MonthStep(ym);
    } else {
      DayInMonth(ym, day);
    }
  }

  lemma CarryBack(ym: YearMonth, day: int)
    requires day < 1
    ensures var p := Preceding(ym); Carry(ym, day) == Carry(p, day + DaysInMonth(p.year, p.month))
  {
  }

  lemma CarryForward(ym: YearMonth, day: int)
    requires day > DaysInMonth(ym.year, ym.month)
    ensures Carry(ym, day) == Carry(Following(ym), day - DaysInMonth(ym.year, ym.month))
  {
  }

  lemma DayInMonth(ym: YearMonth, day: int)
    requires 1 <= day <= DaysInMonth(ym.year, ym.month)
    ensures DayNumber(Carry(ym, day)) == FirstDayNumber(ym) + day - 1
  {
    assert Carry(ym, day) == Date(ym.year, ym.month, day);
  }

  /**
   * The day number of `Normalize(year, month, day)` is `day - 1` days after the first
   * of the normalised month: exactly the value MakeDay gives.
   */
  lemma NormalizeDayNumber(year: int, month: int, day: int)
    ensures DayNumber(Normalize(year, month, day)) == FirstDayNumber(Normalized(year, month)) + day - 1
  {
    CarryDayNumber(Normalized(year, month), day);
  }

  /** A valid date lies inside its year. */
  lemma DayNumberWithinYear(d: Date)
    requires Valid(d)
    ensures DayFromYear(d.year) <= DayNumber(d) < DayFromYear(d.year) + DaysInYear(d.year)
  {
  }

  lemma {:induction false} DayFromYearMonotone(a: int, b: int)
    requires a <= b
    ensures DayFromYear(a) + 365 * (b - a) <= DayFromYear(b)
    decreases b - a
  {
    if a < b {
      DayFromYearMonotone(a, b - 1);
      YearStep(b - 1);
    }
  }

  /** A valid date of an earlier year has a smaller day number. */
  lemma EarlierYear(a: Date, b: Date)
    requires Valid(a) && Valid(b) && a.year < b.year
    ensures DayNumber(a) < DayNumber(b)
  {
    DayNumberWithinYear(a);
    DayNumberWithinYear(b);
    YearStep(a.year);
    DayFromYearMonotone(a.year + 1, b.year);
  }

  /** A valid date of an earlier month of the same year has a smaller day number. */
  lemma EarlierMonth(a: Date, b: Date)
    requires Valid(a) && Valid(b) && a.year == b.year && a.month < b.month
    ensures DayNumber(a) < DayNumber(b)
  {
    DaysBeforeMonthGap(a.year, a.month, b.month);
  }

  /** Distinct valid dates have distinct day numbers. */
  lemma DayNumberInjective(a: Date, b: Date)
    requires Valid(a) && Valid(b) && DayNumber(a) == DayNumber(b)
    ensures a == b
  {
    if a.year < b.year {
      EarlierYear(a, b);
    } else if b.year < a.year {
      EarlierYear(b, a);
    } else if a.month < b.month {
      EarlierMonth(a, b);
    } else if b.month < a.month {
      EarlierMonth(b, a);
    }
  }

  /** `Normalize` is the unique valid date with the day number MakeDay prescribes. */
  lemma NormalizeCharacterised(year: int, month: int, day: int, d: Date)
    requires Valid(d) && DayNumber(d) == FirstDayNumber(Normalized(year, month)) + day - 1
    ensures Normalize(year, month, day) == d
  {
    NormalizeDayNumber(year, month, day);
    DayNumberInjective(Normalize(year, month, day), d);
  }
}
