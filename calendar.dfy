/**
 * Class `Calendar` of src/Calendar.ts: the displayed month, the builders of the grid
 * dates, the decorated date cells, the header label and the month navigation. The
 * cells and the heading that the source writes into the page are returned as values.
 */
module CalendarView {
  import opened JsDate
  import opened Helper
  import opened Types
  import opened MonthView
  import opened Tasks
  import opened GridCells
  import GridCellLemmas
  import MonthViewLemmas
  import Navigation

  class Calendar {
    var tasks: TaskIndex
    var year: int
    var month: int
    var activeDate: string
    var mode: Mode

    /** The clock-dependent defaults of the source are passed in. */
    constructor(tasks: TaskIndex, year: int, month: int, activeDate: string, mode: Mode)
      ensures this.tasks == tasks && this.year == year && this.month == month
      ensures this.activeDate == activeDate && this.mode == mode
    {
      this.tasks := tasks;
      this.year := year;
      this.month := month;
      this.activeDate := activeDate;
      this.mode := mode;
    }

    /** The month is one of 0 .. 11. */
    predicate InRange()
      reads this
    {
      0 <= month < 12
    }

    function Position(): Navigation.Position
      reads this
    {
      Navigation.Position(year, month)
    }

    /** firstDayInCurrentMonth: the weekday (Sunday = 0) of the 1st of the displayed month. */
    function FirstDayInCurrentMonth(): (w: int)
      reads this
      ensures 0 <= w < 7
      ensures InRange() ==> w == Weekday(Date(CivilYear(year), month, 1))
    {
      if InRange() then MonthViewLemmas.FirstDayOfMonth(year, month); FirstDay(year, month)
      else FirstDay(year, month)
    }

    /** #buildPrevDates: one date per i = firstDay down to 1, day `prevMonthDays - i`. */
    method BuildPrevDates() returns (dates: seq<Date>)
      ensures dates == Leading(year, month)
    {
      var dayOfFirstDate := FirstDayInCurrentMonth();
      var prevMonth := month - 1;
      var prevMonthDays := GetNumberOfDaysInAMonth(year, prevMonth);
      dates := [];
      var i := dayOfFirstDate;
      while i > 0
        invariant 0 <= i <= dayOfFirstDate
        invariant dates == Days(year, prevMonth, prevMonthDays - dayOfFirstDate, dayOfFirstDate - i)
      {
        var date := NewDate(year, prevMonth, prevMonthDays - i);
        MonthViewLemmas.CountdownStep(year, prevMonth, prevMonthDays, dayOfFirstDate, i);
        dates := dates + [date];
        i := i - 1;
      }
    }

    /** #buildCurrentDates: days 1 .. getNumberOfDaysInAMonth(year, month) of the month. */
    method BuildCurrentDates() returns (dates: seq<Date>)
      ensures dates == Current(year, month)
    {
      dates := [];
      var currentMonthDays := GetNumberOfDaysInAMonth(year, month);
      DaysInAMonthBounds(year, month);
      var i := 0;
      while i < currentMonthDays
        invariant 0 <= i <= currentMonthDays
        invariant dates == Days(year, month, 1, i)
      {
        var date := NewDate(year, month, i + 1);
        MonthViewLemmas.DaysStep(year, month, 1, i);
        dates := dates + [date];
        i := i + 1;
      }
    }

    /** #buildRemainingDates: days 1, 2, .. of the next month up to a whole number of weeks. */
    method BuildRemainingDates() returns (dates: seq<Date>)
      ensures dates == Trailing(year, month)
    {
      var prevDates := BuildPrevDates();
      var currentDates := BuildCurrentDates();
      var currentCount := |prevDates + currentDates|;
      var nextMonth := month + 1;
      var remainingNumber := currentCount % 7;
      var remainingDates := if remainingNumber == 0 then 0 else 7 - remainingNumber;
      MonthViewLemmas.TrailingCountOf(year, month, currentCount);
      dates := [];
      var i := 0;
      while i < remainingDates
        invariant 0 <= i <= remainingDates
        invariant dates == Days(year, nextMonth, 1, i)
      {
        var date := NewDate(year, nextMonth, i + 1);
        MonthViewLemmas.DaysStep(year, nextMonth, 1, i);
        dates := dates + [date];
        i := i + 1;
      }
    }

    /** #buildDateCells: the leading, current and trailing dates, each decorated. */
    method BuildDateCells() returns (cells: seq<Cell>)
      ensures cells == DateCells(tasks, year, month)
    {
      var prevDates := BuildPrevDates();
      var currentDates := BuildCurrentDates();
      var remainingDates := BuildRemainingDates();
      var dates := prevDates + currentDates + remainingDates;
      cells := [];
      for k := 0 to |dates|
        invariant cells == Cells(tasks, month, dates[..k])
      {
        GridCellLemmas.CellsStep(tasks, month, dates, k);
        cells := cells + [Decorate(tasks, month, dates[k])];
      }
      assert dates[..|dates|] == dates;
    }

    /** #renderHero: the header label of the displayed month. */
    method RenderHero() returns (heading: string)
      ensures heading == HeroLabel(year, month)
    {
      var displayedMonth := FillZeroNumber(month + 1);
      heading := Decimal.IntToString(year) + "." + displayedMonth;
    }

    /** render: the heading and the cells; it reads the state and changes nothing. */
    method Render() returns (heading: string, cells: seq<Cell>)
      ensures heading == HeroLabel(year, month) && cells == DateCells(tasks, year, month)
    {
      heading := RenderHero();
      cells := BuildDateCells();
    }

    /** prev: one month back, then render. Only year and month change. */
    method Prev() returns (heading: string, cells: seq<Cell>)
      modifies this
      ensures Position() == Navigation.Prev(old(Position()))
      ensures old(InRange()) ==> InRange()
      ensures tasks == old(tasks) && activeDate == old(activeDate) && mode == old(mode)
      ensures heading == HeroLabel(year, month) && cells == DateCells(tasks, year, month)
    {
      var prevMonth := month - 1;
      if prevMonth < 0 {
        year := year - 1;
        prevMonth := 11;
      }
      month := prevMonth;
      heading, cells := Render();
    }

    /** next: one month on, then render. Only year and month change. */
    method Next() returns (heading: string, cells: seq<Cell>)
      modifies this
      ensures Position() == Navigation.Next(old(Position()))
      ensures old(InRange()) ==> InRange()
      ensures tasks == old(tasks) && activeDate == old(activeDate) && mode == old(mode)
      ensures heading == HeroLabel(year, month) && cells == DateCells(tasks, year, month)
    {
      var nextMonth := month + 1;
      if nextMonth > 11 {
        year := year + 1;
        nextMonth := 0;
      }
      month := nextMonth;
      heading, cells := Render();
    }
  }
}
