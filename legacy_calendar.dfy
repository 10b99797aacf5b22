// The older class `Calendar` of src/main.ts: the same month state and builders as
// src/Calendar.ts, but a grid of the leading and current dates only, rendered as the
// bare day texts, and no task index.

/** The day texts that #buildDateCells of src/main.ts writes into the page. */
module LegacyCells {
  import opened JsDate
  import opened Helper
  import opened Decimal
  import opened MonthView

  /** The texts of a list of dates: `getDate` of each, in order; a valid date reads back as its day. */
  function Texts(dates: seq<Date>): (r: seq<string>)
    ensures |r| == |dates|
    ensures forall k :: 0 <= k < |r| && Valid(dates[k]) ==> AllDigits(r[k]) && Value(r[k]) == dates[k].day
  {
    seq(|dates|, k requires 0 <= k < |dates| => GetDate(dates[k]))
  }

  /** The texts #buildDateCells of src/main.ts writes for the displayed month: 28 to 37 of them. */
  function LegacyTexts(year: int, month: int): (r: seq<string>)
    ensures |r| == |LegacyGrid(year, month)| && 28 <= |r| <= 37
  {
    Texts(LegacyGrid(year, month))
  }
}

/** What the older grid shows: one unpadded day text per date, and no padding to whole weeks. */
module LegacyCellLemmas {
  import opened JsDate
  import opened Helper
  import opened Decimal
  import opened MonthView
  import opened LegacyCells
  import MonthViewLemmas

  /** Rendering one more date appends its text. */
  lemma TextsStep(dates: seq<Date>, k: int)
    requires 0 <= k < |dates|
    ensures Texts(dates[..k + 1]) == Texts(dates[..k]) + [GetDate(dates[k])]
  {
    var a, b := Texts(dates[..k + 1]), Texts(dates[..k]) + [GetDate(dates[k])];
    assert |a| == |b|;
    forall j | 0 <= j < |a|
      ensures a[j] == b[j]
    {
      if j < k {
        assert dates[..k + 1][j] == dates[..k][j];
      }
    }
  }

  /**
   * The older grid: FirstDay + days texts (28 to 37, not always whole weeks), each the
   * unpadded decimal day of its date; the current ones read 1 .. days.
   */
  lemma LegacyTextsContent(year: int, month: Month)
    ensures var t := LegacyTexts(year, month);
      var g := LegacyGrid(year, month);
      var lead := FirstDay(year, month);
      |t| == lead + DaysInMonth(CivilYear(year), month) && 28 <= |t| <= 37
      && (forall k :: 0 <= k < |t| ==>
            AllDigits(t[k]) && 1 <= |t[k]| <= 2 && t[k][0] != '0' && Value(t[k]) == g[k].day)
      && (forall k :: lead <= k < |t| ==> Value(t[k]) == k - lead + 1)
  {
    MonthViewLemmas.LegacyGridLength(year, month);
    MonthViewLemmas.GridValid(year, month);
    MonthViewLemmas.CurrentCells(year, month);
    var t, g := LegacyTexts(year, month), LegacyGrid(year, month);
    var l, c := Leading(year, month), Current(year, month);
    forall k | 0 <= k < |t|
      ensures AllDigits(t[k]) && 1 <= |t[k]| <= 2 && t[k][0] != '0' && Value(t[k]) == g[k].day
    {
      assert g[k] == Grid(year, month)[k];
    }
    forall k | |l| <= k < |t|
      ensures Value(t[k]) == k - |l| + 1
    {
      assert g[k] == c[k - |l|];
    }
  }

  /** June 2022 in the older grid: 33 texts, not a whole number of weeks. */
  lemma June2022LegacyTexts(year: int, month: Month)
    requires Shown(year, month) == YearMonth(2022, 5)
    ensures |LegacyTexts(year, month)| == 33 && |LegacyTexts(year, month)| % 7 != 0
  {
    MonthViewLemmas.June2022Size(year, month);
  }
}

module LegacyView {
  import opened JsDate
  import opened Helper
  import opened Decimal
  import opened Types
  import opened MonthView
  import MonthViewLemmas
  import Navigation
  import opened LegacyCells
  import LegacyCellLemmas

  class LegacyCalendar {
    var year: int
    var month: int
    var activeDate: string
    var mode: Mode

    /** The clock-dependent defaults of the source are passed in. */
    constructor(year: int, month: int, activeDate: string, mode: Mode)
      ensures this.year == year && this.month == month
      ensures this.activeDate == activeDate && this.mode == mode
    {
      this.year := year;
      this.month := month;
      this.activeDate := activeDate;
      this.mode := mode;
    }

    /** The month is one of 0 .. 11. */
    predicate InRange()
      reads this
    {
      0 <= month < 12
    }

    function Position(): Navigation.Position
      reads this
    {
      Navigation.Position(year, month)
    }

    /** firstDayInCurrentMonth: the weekday (Sunday = 0) of the 1st of the displayed month. */
    function FirstDayInCurrentMonth(): (w: int)
      reads this
      ensures 0 <= w < 7
      ensures InRange() ==> w == Weekday(Date(CivilYear(year), month, 1))
    {
      if InRange() then MonthViewLemmas.FirstDayOfMonth(year, month); FirstDay(year, month)
      else FirstDay(year, month)
    }

    /** #buildPrevDates: one date per i = firstDay down to 1, day `prevMonthDays - i`. */
    method BuildPrevDates() returns (dates: seq<Date>)
      ensures dates == Leading(year, month)
    {
      var dayOfFirstDate := FirstDayInCurrentMonth();
      var prevMonth := month - 1;
      var prevMonthDays := GetNumberOfDaysInAMonth(year, prevMonth);
      dates := [];
      var i := dayOfFirstDate;
      while i > 0
        invariant 0 <= i <= dayOfFirstDate
        invariant dates == Days(year, prevMonth, prevMonthDays - dayOfFirstDate, dayOfFirstDate - i)
      {
        var date := NewDate(year, prevMonth, prevMonthDays - i);
        MonthViewLemmas.CountdownStep(year, prevMonth, prevMonthDays, dayOfFirstDate, i);
        dates := dates + [date];
        i := i - 1;
      }
    }

    /** #buildCurrentDates: days 1 .. getNumberOfDaysInAMonth(year, month) of the month. */
    method BuildCurrentDates() returns (dates: seq<Date>)
      ensures dates == Current(year, month)
    {
      dates := [];
      var currentMonthDays := GetNumberOfDaysInAMonth(year, month);
      DaysInAMonthBounds(year, month);
      var i := 0;
      while i < currentMonthDays
        invariant 0 <= i <= currentMonthDays
        invariant dates == Days(year, month, 1, i)
      {
        var date := NewDate(year, month, i + 1);
        MonthViewLemmas.DaysStep(year, month, 1, i);
        dates := dates + [date];
        i := i + 1;
      }
    }

    /** #buildDateCells: the day text of each leading and current date. */
    method BuildDateCells() returns (texts: seq<string>)
      ensures texts == LegacyTexts(year, month)
    {
      var prevDates := BuildPrevDates();
      var currentDates := BuildCurrentDates();
      var dates := prevDates + currentDates;
      texts := [];
      for k := 0 to |dates|
        invariant texts == Texts(dates[..k])
      {
        LegacyCellLemmas.TextsStep(dates, k);
        texts := texts + [GetDate(dates[k])];
      }
      assert dates[..|dates|] == dates;
    }

    /** #renderHero: `${year}.` and `${month + 1}` padded to two characters. */
    method RenderHero() returns (heading: string)
      ensures heading == HeroLabel(year, month)
    {
      var displayedMonth := FillZero(IntToString(month + 1));
      heading := IntToString(year) + "." + displayedMonth;
    }

    /** render: the heading and the texts; it reads the state and changes nothing. */
    method Render() returns (heading: string, texts: seq<string>)
      ensures heading == HeroLabel(year, month) && texts == LegacyTexts(year, month)
    {
      heading := RenderHero();
      texts := BuildDateCells();
    }

    /** prev: one month back, then render. Only year and month change. */
    method Prev() returns (heading: string, texts: seq<string>)
      modifies this
      ensures Position() == Navigation.Prev(old(Position()))
      ensures old(InRange()) ==> InRange()
      ensures activeDate == old(activeDate) && mode == old(mode)
      ensures heading == HeroLabel(year, month) && texts == LegacyTexts(year, month)
    {
      var prevMonth := month - 1;
      if prevMonth < 0 {
        year := year - 1;
        prevMonth := 11;
      }
      month := prevMonth;
      heading, texts := Render();
    }

    /** next: one month on, then render. Only year and month change. */
    method Next() returns (heading: string, texts: seq<string>)
      modifies this
      ensures Position() == Navigation.Next(old(Position()))
      ensures old(InRange()) ==> InRange()
      ensures activeDate == old(activeDate) && mode == old(mode)
      ensures heading == HeroLabel(year, month) && texts == LegacyTexts(year, month)
    {
      var nextMonth := month + 1;
      if nextMonth > 11 {
        year := year + 1;
        nextMonth := 0;
      }
      month := nextMonth;
      heading, texts := Render();
    }
  }
}

