/**
 * The month grid and the header label that both versions of the widget render
 * (class `Calendar` of src/Calendar.ts and its older copy in src/main.ts), as
 * functions of the displayed (year, month). The builder methods of the two classes
 * are proved to compute these sequences; the lemmas below say what they contain.
 */
module MonthView {
  import opened JsDate
  import opened Helper
  import opened Decimal

  /** firstDayInCurrentMonth: the weekday of `new Date(year, month, 1)`. */
  function FirstDay(year: int, month: int): (w: int)
    ensures 0 <= w < 7
  {
    Weekday(NewDate(year, month, 1))
  }

  /** The length `getNumberOfDaysInAMonth(year, month - 1)` of the previous month. */
  function PrevMonthDays(year: int, month: int): (n: int)
    ensures var ym := Normalized(CivilYear(year), month - 1); n == DaysInMonth(ym.year, ym.month)
  {
    GetNumberOfDaysInAMonth(year, month - 1)
  }

  /**
   * The dates `new Date(year, month, start + k)` for k = 0 .. n - 1, in order, one
   * appended at a time as the builder loops do.
   */
  function Days(year: int, month: int, start: int, n: nat): (r: seq<Date>)
    ensures |r| == n
  {
    if n == 0 then [] else Days(year, month, start, n - 1) + [NewDate(year, month, start + (n - 1))]
  }

  /**
   * #buildPrevDates: for i = FirstDay down to 1, `new Date(year, month - 1, prevMonthDays - i)`;
   * the k-th of them (k = FirstDay - i) is day `prevMonthDays - FirstDay + k`.
   */
  function Leading(year: int, month: int): (r: seq<Date>)
    ensures |r| == FirstDay(year, month)
  {
    var first := FirstDay(year, month);
    var pd := PrevMonthDays(year, month);
    Days(year, month - 1, pd - first, first)
  }

  /** #buildCurrentDates: `new Date(year, month, i + 1)` for i = 0 .. days - 1. */
  function Current(year: int, month: int): (r: seq<Date>)
    ensures var ym := Normalized(CivilYear(year), month); |r| == DaysInMonth(ym.year, ym.month)
  {
    Days(year, month, 1, GetNumberOfDaysInAMonth(year, month))
  }

  /** The cells that round `cells` up to a whole number of weeks. */
  function WeekPadding(cells: int): (pad: int)
    ensures 0 <= pad < 7 && (cells + pad) % 7 == 0
  {
    var remaining := cells % 7;
    if remaining == 0 then 0 else 7 - remaining
  }

  /** The number of trailing cells: what rounds the leading and current cells up to whole weeks. */
  function TrailingCount(year: int, month: int): (n: int)
    ensures 0 <= n < 7 && (FirstDay(year, month) + GetNumberOfDaysInAMonth(year, month) + n) % 7 == 0
  {
    WeekPadding(|Leading(year, month)| + |Current(year, month)|)
  }

  /** #buildRemainingDates: `new Date(year, month + 1, i + 1)` for i = 0 .. TrailingCount - 1. */
  function Trailing(year: int, month: int): (r: seq<Date>)
    ensures |r| < 7
  {
    Days(year, month + 1, 1, TrailingCount(year, month))
  }

  /** The dates of the grid in src/Calendar.ts: leading, current and trailing cells. */
  function Grid(year: int, month: int): (r: seq<Date>)
    ensures |r| % 7 == 0 && 28 <= |r| <= 42
  {
    Leading(year, month) + Current(year, month) + Trailing(year, month)
  }

  /** The dates of the grid in src/main.ts: leading and current cells only. */
  function LegacyGrid(year: int, month: int): (r: seq<Date>)
    ensures |r| == FirstDay(year, month) + GetNumberOfDaysInAMonth(year, month) && 28 <= |r| <= 37
  {
    Leading(year, month) + Current(year, month)
  }

  /**
   * #renderHero: `${year}.${fillZero(month + 1)}`; for a month in 0..11 the month part is
   * exactly two digits, 01 .. 12.
   */
  function HeroLabel(year: int, month: int): (r: string)
    ensures 0 <= month < 12 ==>
      r == IntToString(year) + "." + [DigitChar((month + 1) / 10), DigitChar((month + 1) % 10)]
  {
    if 0 <= month < 12 then
      FillZeroTwoDigits(month + 1);
      IntToString(year) + "." + FillZeroNumber(month + 1)
    else
      IntToString(year) + "." + FillZeroNumber(month + 1)
  }

  /** The month shown, with the two-digit-year rule of the constructor applied. */
  function Shown(year: int, month: Month): YearMonth {
    YearMonth(CivilYear(year), month)
  }

  /** The intended leading cells: the last FirstDay days of the previous month (`pd - i + 1`). */
  function IntendedLeading(year: int, month: int): (r: seq<Date>)
    ensures |r| == FirstDay(year, month)
  {
    var first := FirstDay(year, month);
    var pd := PrevMonthDays(year, month);
    Days(year, month - 1, pd - first + 1, first)
  }

  /** The grid with the intended leading cells; it has the same layout as `Grid`. */
  function IntendedGrid(year: int, month: int): (r: seq<Date>)
    ensures |r| == |Grid(year, month)|
  {
    IntendedLeading(year, month) + Current(year, month) + Trailing(year, month)
  }

}

/**
 * What the month grid contains: the leading, current and trailing cells, the length
 * of the grid, the month flags, the weekday columns, and June 2022 worked out.
 */
module MonthViewLemmas {
  import opened JsDate
  import opened Helper
  import opened Decimal
  import opened MonthView

  // ---------------------------------------------------------------------------
  // What the grid contains, for a month in 0..11

  lemma ShownNormalized(year: int, month: Month)
    ensures Normalized(CivilYear(year), month) == Shown(year, month)
    ensures GetNumberOfDaysInAMonth(year, month) == DaysInMonth(CivilYear(year), month)
  {
    NormalizedInRange(CivilYear(year), month);
  }

  /** The first day of the grid's month is the 1st itself, not normalised. */
  lemma FirstDayOfMonth(year: int, month: Month)
    ensures FirstDay(year, month) == Weekday(Date(CivilYear(year), month, 1))
  {
    ShownNormalized(year, month);
  }

  /** `getNumberOfDaysInAMonth(year, month - 1)` is the length of the preceding month. */
  lemma PrevMonthDaysIs(year: int, month: Month)
    ensures var p := Preceding(Shown(year, month));
      PrevMonthDays(year, month) == DaysInMonth(p.year, p.month)
  {
  }

  /** A day inside the preceding month needs no carry. */
  lemma NewDateInPreceding(year: int, month: Month, day: int)
    requires var p := Preceding(Shown(year, month)); 1 <= day <= DaysInMonth(p.year, p.month)
    ensures var p := Preceding(Shown(year, month)); NewDate(year, month - 1, day) == Date(p.year, p.month, day)
  {
  }

  /** The k-th of the dates built by `Days`. */
  lemma {:induction false} DaysAt(year: int, month: int, start: int, n: nat, k: int)
    requires 0 <= k < n
    ensures Days(year, month, start, n)[k] == NewDate(year, month, start + k)
  {
    if k < n - 1 {
      DaysAt(year, month, start, n - 1, k);
    }
  }

  lemma LeadingIndex(year: int, month: Month, k: int)
    requires 0 <= k < FirstDay(year, month)
    ensures Leading(year, month)[k] == NewDate(year, month - 1, PrevMonthDays(year, month) - FirstDay(year, month) + k)
  {
    LeadingIs(year, month, FirstDay(year, month), PrevMonthDays(year, month), k);
  }

  lemma LeadingIs(year: int, month: int, first: int, pd: int, k: int)
    requires first == FirstDay(year, month) && pd == PrevMonthDays(year, month) && 0 <= k < first
    ensures Leading(year, month)[k] == NewDate(year, month - 1, pd - first + k)
  {
    assert Leading(year, month) == Days(year, month - 1, pd - first, first);
    DaysAt(year, month - 1, pd - first, first, k);
  }

  lemma LeadingAt(year: int, month: Month, k: int)
    requires 0 <= k < FirstDay(year, month)
    ensures var p := Preceding(Shown(year, month));
     Leading(year, month)[k] == Date(p.year, p.month, DaysInMonth(p.year, p.month) - FirstDay(year, month) + k)
  {
    LeadingIndex(year, month, k);
    PrevMonthDaysIs(year, month);
    NewDateInPreceding(year, month, PrevMonthDays(year, month) - FirstDay(year, month) + k);
  }

  /**
   * The leading cells: as many as the weekday of the 1st (0..6), consecutive days of
   * the previous month (December of the year before for January), ending at the
   * day before that month's last day.
   */
  lemma LeadingCells(year: int, month: Month)
    ensures var p := Preceding(Shown(year, month));
      var pd := DaysInMonth(p.year, p.month);
      var cells := Leading(year, month);
      |cells| == FirstDay(year, month) <= 6
      && (forall k :: 0 <= k < |cells| ==> cells[k] == Date(p.year, p.month, pd - |cells| + k))
      && (forall k :: 0 <= k < |cells| ==> Valid(cells[k]) && cells[k].month != month)
      && (|cells| > 0 ==> cells[|cells| - 1].day == pd - 1)
  {
    var p := Preceding(Shown(year, month));
    var cells := Leading(year, month);
    forall k | 0 <= k < |cells|
      ensures cells[k] == Date(p.year, p.month, DaysInMonth(p.year, p.month) - |cells| + k)
    {
      LeadingAt(year, month, k);
    }
  }
  /** Consecutive leading cells are consecutive days. */
  lemma LeadingConsecutive(year: int, month: Month)
    ensures var cells := Leading(year, month);
      forall k :: 0 < k < |cells| ==> DayNumber(cells[k]) == DayNumber(cells[k - 1]) + 1
  {
    LeadingCells(year, month);
  }

  lemma CurrentAt(year: int, month: Month, k: int)
    requires 0 <= k < |Current(year, month)|
    ensures Current(year, month)[k] == Date(CivilYear(year), month, k + 1)
  {
    ShownNormalized(year, month);
    DaysAt(year, month, 1, GetNumberOfDaysInAMonth(year, month), k);
    assert Current(year, month)[k] == NewDate(year, month, k + 1);

    assert NewDate(year, month, k + 1) == Date(CivilYear(year), month, k + 1);
  }

  /** The current cells: days 1 .. DaysInMonth of the month shown, in order. */
  lemma CurrentCells(year: int, month: Month)
    ensures var cells := Current(year, month);
      |cells| == DaysInMonth(CivilYear(year), month)
      && forall k :: 0 <= k < |cells| ==> cells[k] == Date(CivilYear(year), month, k + 1)
  {
    CurrentLength(year, month);
    var cells := Current(year, month);
    forall k | 0 <= k < |cells|
      ensures cells[k] == Date(CivilYear(year), month, k + 1)
    {
      CurrentAt(year, month, k);
    }
  }

  /** The trailing cells: at most six, days 1, 2, .. of the following month. */
  lemma TrailingCells(year: int, month: Month)
    ensures var f := Following(Shown(year, month));
      var cells := Trailing(year, month);
      |cells| <= 6
      && (forall k :: 0 <= k < |cells| ==> cells[k] == Date(f.year, f.month, k + 1))
      && (forall k :: 0 <= k < |cells| ==> cells[k].month != month)
  {
    var f := Following(Shown(year, month));
    var cells := Trailing(year, month);
    forall k | 0 <= k < |cells|
      ensures cells[k] == Date(f.year, f.month, k + 1)
    {
      TrailingAt(year, month, k);
    }
  }

  lemma TrailingIndex(year: int, month: Month, k: int)
    requires 0 <= k < |Trailing(year, month)|
    ensures Trailing(year, month)[k] == NewDate(year, month + 1, k + 1)
  {
    DaysAt(year, month + 1, 1, TrailingCount(year, month), k);
  }

  lemma TrailingShort(year: int, month: Month)
    ensures |Trailing(year, month)| < 7
  {
  }

  /** A day inside the following month needs no carry. */
  lemma NewDateInFollowing(year: int, month: Month, day: int)
    requires var f := Following(Shown(year, month)); 1 <= day <= DaysInMonth(f.year, f.month)
    ensures var f := Following(Shown(year, month)); NewDate(year, month + 1, day) == Date(f.year, f.month, day)
  {
  }

  lemma TrailingAt(year: int, month: Month, k: int)
    requires 0 <= k < |Trailing(year, month)|
    ensures var f := Following(Shown(year, month));
      Trailing(year, month)[k] == Date(f.year, f.month, k + 1)
  {
    TrailingIndex(year, month, k);
    TrailingShort(year, month);
    NewDateInFollowing(year, month, k + 1);
  }

  lemma CurrentLength(year: int, month: Month)
    ensures |Current(year, month)| == DaysInMonth(CivilYear(year), month)
  {
    ShownNormalized(year, month);
  }

  /** Rounding 28 .. 37 cells up to whole weeks gives 28, 35 or 42. */
  lemma WholeWeeks(cells: int)
    requires 28 <= cells <= 37
    ensures var total := cells + WeekPadding(cells);
      (total == 28 || total == 35 || total == 42)
  {
  }

  lemma GridSize(year: int, month: Month)
    ensures |Grid(year, month)| == |Leading(year, month)| + |Current(year, month)| + TrailingCount(year, month)
    ensures 28 <= |Leading(year, month)| + |Current(year, month)| <= 37
  {
    LeadingCells(year, month);
    CurrentCells(year, month);
  }

  /** The grid is whole weeks: 28, 35 or 42 cells, never fewer than the days of the month. */
  lemma GridLength(year: int, month: Month)
    ensures |Grid(year, month)| % 7 == 0
    ensures |Grid(year, month)| == 28 || |Grid(year, month)| == 35 || |Grid(year, month)| == 42
    ensures |Grid(year, month)| >= DaysInMonth(CivilYear(year), month)
  {
    GridSize(year, month);
    CurrentCells(year, month);
    WholeWeeks(|Leading(year, month)| + |Current(year, month)|);
  }

  /** Exactly the current cells are in the month shown; the others get the `prev-month` flag. */
  lemma GridMonthFlags(year: int, month: Month)
    ensures var g := Grid(year, month);
      var lead := |Leading(year, month)|;
      forall k :: 0 <= k < |g| ==>
        (g[k].month == month <==> lead <= k < lead + DaysInMonth(CivilYear(year), month))
  {
    LeadingCells(year, month);
    CurrentCells(year, month);
    TrailingCells(year, month);
    var g := Grid(year, month);
    var l, c, t := Leading(year, month), Current(year, month), Trailing(year, month);
    forall k | 0 <= k < |g|
      ensures g[k] == if k < |l| then l[k] else if k < |l| + |c| then c[k - |l|] else t[k - |l| - |c|]
    {
    }
  }

  /** Every cell of the grid is a date that exists: no carry is left over. */
  lemma GridValid(year: int, month: Month)
    ensures var g := Grid(year, month); forall k :: 0 <= k < |g| ==> Valid(g[k])
  {
    LeadingCells(year, month);
    CurrentCells(year, month);
    TrailingCells(year, month);
    var g := Grid(year, month);
    var l, c, t := Leading(year, month), Current(year, month), Trailing(year, month);
    forall k | 0 <= k < |g|
      ensures Valid(g[k])
    {
      if k < |l| {
        assert g[k] == l[k];
      } else if k < |l| + |c| {
        assert g[k] == c[k - |l|];
      } else {
        assert g[k] == t[k - |l| - |c|];
      }
    }
  }

  /** The grid of src/main.ts has no trailing cells: FirstDay + days cells, 28 to 37. */
  lemma LegacyGridLength(year: int, month: Month)
    ensures |LegacyGrid(year, month)| == FirstDay(year, month) + DaysInMonth(CivilYear(year), month)
    ensures 28 <= |LegacyGrid(year, month)| <= 37
  {
    LeadingCells(year, month);
    CurrentCells(year, month);
  }

  /** Different months (or years) get different labels. */
  lemma HeroLabelInjective(y1: int, m1: Month, y2: int, m2: Month)
    ensures HeroLabel(y1, m1) == HeroLabel(y2, m2) <==> y1 == y2 && m1 == m2
  {
    if HeroLabel(y1, m1) == HeroLabel(y2, m2) {
      var t1 := [DigitChar((m1 + 1) / 10), DigitChar((m1 + 1) % 10)];
      var t2 := [DigitChar((m2 + 1) / 10), DigitChar((m2 + 1) % 10)];
      assert IntToString(y1) + "." + t1 == IntToString(y2) + "." + t2;
      SplitConcat(IntToString(y1) + ".", t1, IntToString(y2) + ".", t2);
      SplitConcat(IntToString(y1), ".", IntToString(y2), ".");
      IntToStringInjective(y1, y2);
      assert DigitValue(t1[0]) == (m1 + 1) / 10 == (m2 + 1) / 10;
      assert DigitValue(t1[1]) == (m1 + 1) % 10 == (m2 + 1) % 10;
    }
  }

  // ---------------------------------------------------------------------------
  // June 2022

  // The month (year, month) is passed as parameters fixed by the requires clause, so
  // that the verifier does not evaluate the recursive date functions on literals.

  lemma ThreeCells(s: seq<Date>, a: Date, b: Date, c: Date)
    requires |s| == 3 && s[0] == a && s[1] == b && s[2] == c
    ensures s == [a, b, c]
  {
  }

  lemma TwoCells(s: seq<Date>, a: Date, b: Date)
    requires |s| == 2 && s[0] == a && s[1] == b
    ensures s == [a, b]
  {
  }

  lemma June2022Months(year: int, month: Month)
    requires Shown(year, month) == YearMonth(2022, 5)
    ensures Preceding(Shown(year, month)) == YearMonth(2022, 4)
    ensures Following(Shown(year, month)) == YearMonth(2022, 6)
  {
  }

  lemma June2022FirstDay(year: int, month: Month)
    requires Shown(year, month) == YearMonth(2022, 5)
    ensures FirstDay(year, month) == 3
  {
    FirstDayOfMonth(year, month);
    assert Date(CivilYear(year), month, 1) == Date(2022, 5, 1);
    June2022Weekday();
  }

  lemma June2022Weekday()
    ensures Weekday(Date(2022, 5, 1)) == 3
  {
  }

  /** A month starting on a Wednesday, after a month (py, pm) of pd days, shows three leading cells. */
  lemma LeadingOfWednesday(year: int, month: Month, py: int, pm: Month, pd: int)
    requires FirstDay(year, month) == 3 && Preceding(Shown(year, month)) == YearMonth(py, pm)
    requires DaysInMonth(py, pm) == pd
    ensures Leading(year, month) == [Date(py, pm, pd - 3), Date(py, pm, pd - 2), Date(py, pm, pd - 1)]
  {
    LeadingAt(year, month, 0);
    LeadingAt(year, month, 1);
    LeadingAt(year, month, 2);
    ThreeCells(Leading(year, month), Date(py, pm, pd - 3), Date(py, pm, pd - 2), Date(py, pm, pd - 1));
  }

  // A context that knows the literal month makes the verifier unfold the date
  // functions; the facts about the cells are therefore derived from the weekday and
  // the neighbouring months alone.

  lemma LeadingAfterMay2022(year: int, month: Month)
    requires FirstDay(year, month) == 3 && Preceding(Shown(year, month)) == YearMonth(2022, 4)
    ensures Leading(year, month) == [Date(2022, 4, 28), Date(2022, 4, 29), Date(2022, 4, 30)]
  {
    LeadingOfWednesday(year, month, 2022, 4, 31);
  }

  /** June 2022 starts on a Wednesday; the code shows May 28-30 before June 1 (not May 29-31). */
  lemma June2022Leading(year: int, month: Month)
    requires Shown(year, month) == YearMonth(2022, 5)
    ensures Leading(year, month) == [Date(2022, 4, 28), Date(2022, 4, 29), Date(2022, 4, 30)]
  {
    June2022Months(year, month);
    June2022FirstDay(year, month);
    LeadingAfterMay2022(year, month);
  }

  lemma June2022Length(year: int, month: Month)
    requires Shown(year, month) == YearMonth(2022, 5)
    ensures |Current(year, month)| == 30
  {
    CurrentLength(year, month);
  }

  lemma LeadingLength(year: int, month: Month)
    ensures |Leading(year, month)| == FirstDay(year, month)
  {
  }

  lemma Padding33()
    ensures WeekPadding(33) == 2
  {
  }

  lemma GridBeforeJuly2022(year: int, month: Month)
    requires |Leading(year, month)| == 3 && |Current(year, month)| == 30
    requires Following(Shown(year, month)) == YearMonth(2022, 6)
    ensures Trailing(year, month) == [Date(2022, 6, 1), Date(2022, 6, 2)]
    ensures |Grid(year, month)| == 35
    ensures |LegacyGrid(year, month)| == 33
  {
    Padding33();
    assert |Trailing(year, month)| == 2;
    TrailingAt(year, month, 0);
    TrailingAt(year, month, 1);
    TwoCells(Trailing(year, month), Date(2022, 6, 1), Date(2022, 6, 2));
  }

  /** June 2022 ends its grid with July 1 and 2. */
  lemma June2022Trailing(year: int, month: Month)
    requires Shown(year, month) == YearMonth(2022, 5)
    ensures Trailing(year, month) == [Date(2022, 6, 1), Date(2022, 6, 2)]
  {
    June2022Months(year, month);
    June2022FirstDay(year, month);
    June2022Length(year, month);
    LeadingLength(year, month);
    GridBeforeJuly2022(year, month);
  }

  /** June 2022: 3 + 30 + 2 = 35 cells; the grid of src/main.ts has 33, not whole weeks. */
  lemma June2022Size(year: int, month: Month)
    requires Shown(year, month) == YearMonth(2022, 5)
    ensures |Grid(year, month)| == 35 && |LegacyGrid(year, month)| == 33
  {
    June2022Months(year, month);
    June2022FirstDay(year, month);
    June2022Length(year, month);
    LeadingLength(year, month);
    GridBeforeJuly2022(year, month);
  }


  // ---------------------------------------------------------------------------
  // Weekday columns

  lemma ModShift(q: int, j: int)
    ensures (7 * q + j) % 7 == j % 7
  {
  }

  /** A date `j` days after the Sunday that opens the first week falls in column j % 7. */
  lemma WeekdayColumn(d: Date, ym: YearMonth, j: int)
    requires DayNumber(d) == FirstDayNumber(ym) - Weekday(Date(ym.year, ym.month, 1)) + j
    ensures Weekday(d) == j % 7
  {
    var x := FirstDayNumber(ym) + 4;
    assert x - x % 7 == 7 * (x / 7);
    ModShift(x / 7, j);
  }

  lemma IntendedLeadingIndex(year: int, month: Month, k: int)
    requires 0 <= k < FirstDay(year, month)
    ensures IntendedLeading(year, month)[k] == NewDate(year, month - 1, PrevMonthDays(year, month) - FirstDay(year, month) + 1 + k)
  {
    IntendedLeadingIs(year, month, FirstDay(year, month), PrevMonthDays(year, month), k);
  }

  lemma IntendedLeadingIs(year: int, month: int, first: int, pd: int, k: int)
    requires first == FirstDay(year, month) && pd == PrevMonthDays(year, month) && 0 <= k < first
    ensures IntendedLeading(year, month)[k] == NewDate(year, month - 1, pd - first + 1 + k)
  {
    assert IntendedLeading(year, month) == Days(year, month - 1, pd - first + 1, first);
    DaysAt(year, month - 1, pd - first + 1, first, k);
  }

  lemma IntendedLeadingAt(year: int, month: Month, k: int)
    requires 0 <= k < FirstDay(year, month)
    ensures var p := Preceding(Shown(year, month));
     IntendedLeading(year, month)[k] == Date(p.year, p.month, DaysInMonth(p.year, p.month) - FirstDay(year, month) + k + 1)
  {
    IntendedLeadingIndex(year, month, k);
    PrevMonthDaysIs(year, month);
    NewDateInPreceding(year, month, PrevMonthDays(year, month) - FirstDay(year, month) + 1 + k);
  }

  /** The intended leading cells end with the last day of the previous month. */
  lemma IntendedLeadingCells(year: int, month: Month)
    ensures var p := Preceding(Shown(year, month));
      var pd := DaysInMonth(p.year, p.month);
      var cells := IntendedLeading(year, month);
      |cells| == FirstDay(year, month)
      && (forall k :: 0 <= k < |cells| ==> cells[k] == Date(p.year, p.month, pd - |cells| + k + 1))
      && (|cells| > 0 ==> cells[|cells| - 1].day == pd)
  {
    var p := Preceding(Shown(year, month));
    var cells := IntendedLeading(year, month);
    forall k | 0 <= k < |cells|
      ensures cells[k] == Date(p.year, p.month, DaysInMonth(p.year, p.month) - |cells| + k + 1)
    {
      IntendedLeadingAt(year, month, k);
    }
  }

  /** The day number of a date is its offset from the first of its month. */
  lemma DayNumberInMonth(ym: YearMonth, day: int)
    ensures DayNumber(Date(ym.year, ym.month, day)) == FirstDayNumber(ym) + day - 1
  {
  }

  /** The last days of the previous month lead up to the first of this one. */
  lemma PrecedingDayNumber(ym: YearMonth, day: int)
    ensures var p := Preceding(ym);
      DayNumber(Date(p.year, p.month, day)) == FirstDayNumber(ym) - DaysInMonth(p.year, p.month) + day - 1
  {
    var p := Preceding(ym);
    MonthStep(p);
    assert Following(p) == ym;
    DayNumberInMonth(p, day);
  }

  lemma FollowingDayNumber(ym: YearMonth, day: int)
    ensures var f := Following(ym);
      DayNumber(Date(f.year, f.month, day)) == FirstDayNumber(ym) + DaysInMonth(ym.year, ym.month) + day - 1
  {
    MonthStep(ym);
    DayNumberInMonth(Following(ym), day);
  }

  /** As written, leading cell k lies FirstDay - k + 1 days before the 1st: a column too early. */
  lemma LeadingColumns(year: int, month: Month)
    ensures var l := Leading(year, month);
      |l| == FirstDay(year, month) && forall k :: 0 <= k < |l| ==> Weekday(l[k]) == (k + 6) % 7
  {
    var ym := Shown(year, month);
    var l := Leading(year, month);
    FirstDayOfMonth(year, month);
    forall k | 0 <= k < |l|
      ensures Weekday(l[k]) == (k + 6) % 7
    {
      var p := Preceding(ym);
      LeadingAt(year, month, k);
      PrecedingDayNumber(ym, DaysInMonth(p.year, p.month) - FirstDay(year, month) + k);
      WeekdayColumn(l[k], ym, k - 1);
      ModShift(1, k - 1);
    }
  }

  /** The intended leading cells lie in the column of their weekday. */
  lemma IntendedLeadingColumns(year: int, month: Month)
    ensures var l := IntendedLeading(year, month);
      |l| == FirstDay(year, month) && forall k :: 0 <= k < |l| ==> Weekday(l[k]) == k % 7
  {
    var ym := Shown(year, month);
    var l := IntendedLeading(year, month);
    FirstDayOfMonth(year, month);
    forall k | 0 <= k < |l|
      ensures Weekday(l[k]) == k % 7
    {
      var p := Preceding(ym);
      IntendedLeadingAt(year, month, k);
      PrecedingDayNumber(ym, DaysInMonth(p.year, p.month) - FirstDay(year, month) + k + 1);
      WeekdayColumn(l[k], ym, k);
    }
  }

  /** Current cell j sits in column FirstDay + j. */
  lemma CurrentColumns(year: int, month: Month)
    ensures var c := Current(year, month);
      forall j :: 0 <= j < |c| ==> Weekday(c[j]) == (FirstDay(year, month) + j) % 7
  {
    var c := Current(year, month);
    forall j | 0 <= j < |c|
      ensures Weekday(c[j]) == (FirstDay(year, month) + j) % 7
    {
      CurrentColumn(year, month, j);
    }
  }

  lemma CurrentColumn(year: int, month: Month, j: int)
    requires 0 <= j < |Current(year, month)|
    ensures Weekday(Current(year, month)[j]) == (FirstDay(year, month) + j) % 7
  {
    var ym := Shown(year, month);
    var d := Current(year, month)[j];
    FirstDayOfMonth(year, month);
    CurrentAt(year, month, j);
    assert d == Date(ym.year, ym.month, j + 1);
    DayNumberInMonth(ym, j + 1);
    WeekdayColumn(d, ym, FirstDay(year, month) + j);
  }

  /** Trailing cell j sits in column FirstDay + days + j. */
  lemma TrailingColumns(year: int, month: Month)
    ensures var t := Trailing(year, month);
      forall j :: 0 <= j < |t| ==>
        Weekday(t[j]) == (FirstDay(year, month) + |Current(year, month)| + j) % 7
  {
    var t := Trailing(year, month);
    forall j | 0 <= j < |t|
      ensures Weekday(t[j]) == (FirstDay(year, month) + |Current(year, month)| + j) % 7
    {
      TrailingColumn(year, month, j);
    }
  }

  lemma TrailingColumn(year: int, month: Month, j: int)
    requires 0 <= j < |Trailing(year, month)|
    ensures Weekday(Trailing(year, month)[j]) == (FirstDay(year, month) + |Current(year, month)| + j) % 7
  {
    var ym := Shown(year, month);
    FirstDayOfMonth(year, month);
    CurrentLength(year, month);
    TrailingAt(year, month, j);
    ColumnAfter(Trailing(year, month)[j], ym, FirstDay(year, month), |Current(year, month)|, j);
  }

  /** Day j + 1 of the following month sits in column first + n + j. */
  lemma ColumnAfter(d: Date, ym: YearMonth, first: int, n: int, j: int)
    requires d == Date(Following(ym).year, Following(ym).month, j + 1)
    requires first == Weekday(Date(ym.year, ym.month, 1)) && n == DaysInMonth(ym.year, ym.month)
    ensures Weekday(d) == (first + n + j) % 7
  {
    FollowingDayNumber(ym, j + 1);
    WeekdayColumn(d, ym, first + n + j);
  }

  /** Concatenated parts whose cells sit in their own columns give a grid aligned throughout. */
  lemma AlignedConcat(l: seq<Date>, c: seq<Date>, t: seq<Date>, first: int)
    requires |l| == first
    requires forall k :: 0 <= k < |l| ==> Weekday(l[k]) == k % 7
    requires forall j :: 0 <= j < |c| ==> Weekday(c[j]) == (first + j) % 7
    requires forall j :: 0 <= j < |t| ==> Weekday(t[j]) == (first + |c| + j) % 7
    ensures var g := l + c + t; forall k :: 0 <= k < |g| ==> Weekday(g[k]) == k % 7
  {
    var g := l + c + t;
    forall k | 0 <= k < |g|
      ensures Weekday(g[k]) == k % 7
    {
      if k < |l| {
        assert g[k] == l[k];
      } else if k < |l| + |c| {
        assert g[k] == c[k - |l|];
      } else {
        assert g[k] == t[k - |l| - |c|];
      }
    }
  }

  /** With the intended leading cells every date lies in the column of its weekday. */
  lemma IntendedGridAligned(year: int, month: Month)
    ensures var g := IntendedGrid(year, month);
      forall k :: 0 <= k < |g| ==> Weekday(g[k]) == k % 7
  {
    IntendedLeadingColumns(year, month);
    CurrentColumns(year, month);
    TrailingColumns(year, month);
    AlignedConcat(IntendedLeading(year, month), Current(year, month), Trailing(year, month), FirstDay(year, month));
  }

  /** Leading cells a column early, then the rest in their own columns. */
  lemma ShiftedConcat(l: seq<Date>, c: seq<Date>, t: seq<Date>, first: int)
    requires |l| == first
    requires forall k :: 0 <= k < |l| ==> Weekday(l[k]) == (k + 6) % 7
    requires forall j :: 0 <= j < |c| ==> Weekday(c[j]) == (first + j) % 7
    requires forall j :: 0 <= j < |t| ==> Weekday(t[j]) == (first + |c| + j) % 7
    ensures var g := l + c + t;
      (forall k :: 0 <= k < |l| ==> Weekday(g[k]) == (k + 6) % 7)
      && (forall k :: |l| <= k < |g| ==> Weekday(g[k]) == k % 7)
  {
    var g := l + c + t;
    forall k | 0 <= k < |g|
      ensures k < |l| ==> Weekday(g[k]) == (k + 6) % 7
      ensures k >= |l| ==> Weekday(g[k]) == k % 7
    {
      if k < |l| {
        assert g[k] == l[k];
      } else if k < |l| + |c| {
        assert g[k] == c[k - |l|];
      } else {
        assert g[k] == t[k - |l| - |c|];
      }
    }
  }

  /**
   * As written, each leading cell is the day before the one its column stands for:
   * its weekday is one less than the column, while the current and trailing cells sit
   * in their own columns.
   */
  lemma GridColumnsAsWritten(year: int, month: Month)
    ensures var g := Grid(year, month);
      var lead := |Leading(year, month)|;
      (forall k :: 0 <= k < lead ==> Weekday(g[k]) == (k + 6) % 7)
      && (forall k :: lead <= k < |g| ==> Weekday(g[k]) == k % 7)
  {
    LeadingColumns(year, month);
    CurrentColumns(year, month);
    TrailingColumns(year, month);
    ShiftedConcat(Leading(year, month), Current(year, month), Trailing(year, month), FirstDay(year, month));
  }

  /**
   * Whenever the month does not start on a Sunday, the grid as written opens with a
   * Saturday in the Sunday column, and the intended grid with a Sunday.
   */
  lemma FirstColumn(year: int, month: Month)
    requires FirstDay(year, month) > 0
    ensures Weekday(Grid(year, month)[0]) == 6
    ensures Weekday(IntendedGrid(year, month)[0]) == 0
  {
    GridColumnsAsWritten(year, month);
    IntendedGridAligned(year, month);
  }

  lemma IntendedAfterMay2022(year: int, month: Month)
    requires FirstDay(year, month) == 3 && Preceding(Shown(year, month)) == YearMonth(2022, 4)
    ensures IntendedLeading(year, month) == [Date(2022, 4, 29), Date(2022, 4, 30), Date(2022, 4, 31)]
  {
    IntendedLeadingAt(year, month, 0);
    IntendedLeadingAt(year, month, 1);
    IntendedLeadingAt(year, month, 2);
    ThreeCells(IntendedLeading(year, month), Date(2022, 4, 29), Date(2022, 4, 30), Date(2022, 4, 31));
  }

  /** June 2022: the intended grid starts with May 29 in the Sunday column, the code's with May 28. */
  lemma June2022Intended(year: int, month: Month)
    requires Shown(year, month) == YearMonth(2022, 5)
    ensures IntendedLeading(year, month) == [Date(2022, 4, 29), Date(2022, 4, 30), Date(2022, 4, 31)]
    ensures Weekday(Grid(year, month)[0]) == 6 && Weekday(IntendedGrid(year, month)[0]) == 0
  {
    June2022Months(year, month);
    June2022FirstDay(year, month);
    IntendedAfterMay2022(year, month);
    FirstColumn(year, month);
  }

  // ---------------------------------------------------------------------------
  // One step of each builder loop, for any month number

  /** One more iteration of a builder loop appends the next date. */
  lemma DaysStep(year: int, month: int, start: int, n: nat)
    ensures Days(year, month, start, n + 1) == Days(year, month, start, n) + [NewDate(year, month, start + n)]
  {
  }

  /** The padding #buildRemainingDates computes from the number of leading and current cells. */
  lemma TrailingCountOf(year: int, month: int, count: int)
    requires count == |Leading(year, month) + Current(year, month)|
    ensures (if count % 7 == 0 then 0 else 7 - count % 7) == TrailingCount(year, month)
  {
  }

  /** One iteration of the count-down loop of #buildPrevDates: i = first - n appends day `pd - i`. */
  lemma CountdownStep(year: int, month: int, pd: int, first: int, i: int)
    requires 0 < i <= first
    ensures Days(year, month, pd - first, first - (i - 1))
         == Days(year, month, pd - first, first - i) + [NewDate(year, month, pd - i)]
  {
    DaysStep(year, month, pd - first, first - i);
    assert pd - first + (first - i) == pd - i;
  }
}
