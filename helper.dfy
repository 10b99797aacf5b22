/**
 * The string and date helpers of src/helper.ts. A date string is represented by the
 * calendar date it denotes (see `JsDate`).
 */
module Helper {
  import opened JsDate
  import opened Decimal

  /**
   * getNumberOfDaysInAMonth: day 0 of the following month, `new Date(year, month + 1, 0)`.
   * For any integer month this is the last day of the month that `month` normalises to,
   * so the result is that month's length.
   */
  function GetNumberOfDaysInAMonth(year: int, month: int): (n: int)
    ensures var ym := Normalized(CivilYear(year), month); n == DaysInMonth(ym.year, ym.month)
  {
    var ym := Normalized(CivilYear(year), month + 1);
    var p := Preceding(ym);
    PrecedingOfNext(CivilYear(year), month);
    CarryBack(ym, 0);
    assert NewDate(year, month + 1, 0) == Carry(p, DaysInMonth(p.year, p.month));
    NewDate(year, month + 1, 0).day
  }

  /** Its value is a month length; for 0..11 it follows the leap rule; -1 and 12 give 31. */
  lemma DaysInAMonthBounds(year: int, month: int)
    ensures 28 <= GetNumberOfDaysInAMonth(year, month) <= 31
    ensures 0 <= month < 12 ==> GetNumberOfDaysInAMonth(year, month) == DaysInMonth(CivilYear(year), month)
    ensures month == 1 ==> (GetNumberOfDaysInAMonth(year, month) == 29 <==> IsLeap(CivilYear(year)))
    ensures month == -1 || month == 12 ==> GetNumberOfDaysInAMonth(year, month) == 31
  {
    if 0 <= month < 12 {
      NormalizedInRange(CivilYear(year), month);
    } else if month == -1 {
      DivModUnique(12 * CivilYear(year) - 1, CivilYear(year) - 1, 11);
    } else if month == 12 {
      DivModUnique(12 * CivilYear(year) + 12, CivilYear(year) + 1, 0);
    }
  }

  /** fillZero: `padStart(2, '0')` of the string (a number is first rendered in decimal). */
  function FillZero(s: string): (r: string)
    ensures |r| == if |s| >= 2 then |s| else 2
    ensures r[|r| - |s|..] == s
    ensures forall i :: 0 <= i < |r| - |s| ==> r[i] == '0'
  {
    if |s| >= 2 then s else seq(2 - |s|, _ => '0') + s
  }

  /** fillZero applied to a number, which is first rendered in decimal. */
  function FillZeroNumber(n: int): string {
    FillZero(IntToString(n))
  }

  /** A number below 100 becomes exactly its two decimal digits ("01" .. "99"). */
  lemma FillZeroTwoDigits(n: int)
    requires 0 <= n < 100
    ensures FillZeroNumber(n) == [DigitChar(n / 10), DigitChar(n % 10)]
  {
    NatToStringBelow100(n);
  }

  lemma FillZeroIdempotent(s: string)
    ensures FillZero(FillZero(s)) == FillZero(s)
  {
  }

  /** The padding of a one-digit string, and a longer string left alone. */
  lemma FillZeroExamples()
    ensures FillZero("7") == "07" && FillZero("12") == "12" && FillZero("123") == "123"
  {
    assert FillZero("7") == seq(1, _ => '0') + "7";
    assert seq(1, _ => '0') == "0";
  }

  /**
   * getDate: the day of the month, unpadded. For a valid date it is one or two decimal
   * digits with no leading zero, and it reads back as the day.
   */
  function GetDate(d: Date): (r: string)
    ensures Valid(d) ==> 1 <= |r| <= 2 && r[0] != '0' && AllDigits(r) && Value(r) == d.day
  {
    if Valid(d) then
      ValueOfNatToString(d.day);
      IntToString(d.day)
    else
      IntToString(d.day)
  }

  /** formatDate: `Y-MM-DD` of the calendar date. */
  function FormatDate(d: Date): string {
    IntToString(d.year) + "-" + FillZeroNumber(d.month + 1) + "-" + FillZeroNumber(d.day)
  }

  /** The six characters after the year: "-MM-DD". */
  function MonthDayPart(d: Date): string
    requires Valid(d)
  {
    "-" + [DigitChar((d.month + 1) / 10), DigitChar((d.month + 1) % 10)]
      + "-" + [DigitChar(d.day / 10), DigitChar(d.day % 10)]
  }

  /** For a valid date the string is the year followed by "-MM-DD". */
  lemma FormatDateShape(d: Date)
    requires Valid(d)
    ensures FormatDate(d) == IntToString(d.year) + MonthDayPart(d)
  {
    Regroup(IntToString(d.year), "-", FillZeroNumber(d.month + 1), "-", FillZeroNumber(d.day));
    FillZeroTwoDigits(d.month + 1);
    FillZeroTwoDigits(d.day);
  }

  lemma Regroup(a: string, b: string, c: string, d: string, e: string)
    ensures a + b + c + d + e == a + (b + c + d + e)
  {
  }

  /** Equal concatenations with equally long tails have equal heads and tails. */
  lemma SplitConcat(x: string, y: string, x': string, y': string)
    requires x + y == x' + y' && |y| == |y'|
    ensures x == x' && y == y'
  {
    assert x == (x + y)[..|x|];
    assert x' == (x' + y')[..|x'|];
    assert y == (x + y)[|x|..];
    assert y' == (x' + y')[|x'|..];
  }

  lemma MonthDayPartInjective(a: Date, b: Date)
    requires Valid(a) && Valid(b) && MonthDayPart(a) == MonthDayPart(b)
    ensures a.month == b.month && a.day == b.day
  {
    var t := MonthDayPart(a);
    assert DigitValue(t[1]) == (a.month + 1) / 10 == (b.month + 1) / 10;
    assert DigitValue(t[2]) == (a.month + 1) % 10 == (b.month + 1) % 10;
    assert DigitValue(t[4]) == a.day / 10 == b.day / 10;
    assert DigitValue(t[5]) == a.day % 10 == b.day % 10;
  }

  /** Two valid dates have the same `Y-MM-DD` string exactly when they are the same date. */
  lemma FormatDateInjective(a: Date, b: Date)
    requires Valid(a) && Valid(b)
    ensures FormatDate(a) == FormatDate(b) <==> a == b
  {
    if FormatDate(a) == FormatDate(b) {
      FormatDateShape(a);
      FormatDateShape(b);
      SplitConcat(IntToString(a.year), MonthDayPart(a), IntToString(b.year), MonthDayPart(b));
      IntToStringInjective(a.year, b.year);
      MonthDayPartInjective(a, b);
    }
  }
}
