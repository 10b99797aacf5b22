/**
 * The date cells that #buildDateCells of src/Calendar.ts renders: each date of the
 * grid with its day text, its month flag and its task tag.
 */
module GridCells {
  import opened JsDate
  import opened Helper
  import opened Types
  import opened MonthView
  import opened Tasks

  /**
   * A date cell of #buildDateCells: its text (`getDate`), its date (`data-date`), the
   * `prev-month` flag, and the tag (none, `normal` or `emergency`).
   */
  datatype Cell = Cell(text: string, date: Date, outside: bool, tag: Option<Status>)

  /**
   * The body of the `forEach` in #buildDateCells for one date of the grid: the cell carries
   * the date and its day text, is flagged when the date lies outside `month`, and is tagged
   * when `haveTask` holds, as an emergency when `haveEmergency` holds.
   */
  function Decorate(tasks: TaskIndex, month: int, d: Date): (c: Cell)
    ensures c.date == d && c.text == GetDate(d) && (c.outside <==> d.month != month)
    ensures c.tag.Some? <==> tasks.HaveTask(Some(d))
    ensures c.tag == Some(Emergency) <==> tasks.HaveEmergency(Some(d))
    ensures c.tag == Some(Normal) <==> tasks.HaveTask(Some(d)) && !tasks.HaveEmergency(Some(d))
  {
    var tag :=
      if tasks.HaveTask(Some(d)) then Some(if tasks.HaveEmergency(Some(d)) then Emergency else Normal)
      else None;
    Cell(GetDate(d), d, d.month != month, tag)
  }

  /** The cells of a list of dates, one per date, in order. */
  function Cells(tasks: TaskIndex, month: int, dates: seq<Date>): (r: seq<Cell>)
    ensures |r| == |dates|
  {
    seq(|dates|, k requires 0 <= k < |dates| => Decorate(tasks, month, dates[k]))
  }

  /** The cells #buildDateCells renders for the displayed month: one per grid date, in order. */
  function DateCells(tasks: TaskIndex, year: int, month: int): (r: seq<Cell>)
    ensures |r| == |Grid(year, month)| && forall k :: 0 <= k < |r| ==> r[k].date == Grid(year, month)[k]
  {
    Cells(tasks, month, Grid(year, month))
  }
}

/** What the date cells contain: one per grid date, with its day, month flag and tag. */
module GridCellLemmas {
  import opened JsDate
  import opened Helper
  import opened Decimal
  import opened Types
  import opened MonthView
  import opened Tasks
  import opened GridCells
  import MonthViewLemmas
  import TaskLemmas

  /** Decorating one more date appends its cell. */
  lemma CellsStep(tasks: TaskIndex, month: int, dates: seq<Date>, k: int)
    requires 0 <= k < |dates|
    ensures Cells(tasks, month, dates[..k + 1]) == Cells(tasks, month, dates[..k]) + [Decorate(tasks, month, dates[k])]
  {
    var longer, shorter := dates[..k + 1], dates[..k];
    assert longer == shorter + [dates[k]];
    CellsAppend(tasks, month, shorter, dates[k]);
  }

  lemma CellsAppend(tasks: TaskIndex, month: int, dates: seq<Date>, d: Date)
    ensures Cells(tasks, month, dates + [d]) == Cells(tasks, month, dates) + [Decorate(tasks, month, d)]
  {
    var a, b := Cells(tasks, month, dates + [d]), Cells(tasks, month, dates) + [Decorate(tasks, month, d)];
    assert |a| == |b|;
    forall j | 0 <= j < |a|
      ensures a[j] == b[j]
    {
      if j < |dates| {
        assert (dates + [d])[j] == dates[j];
      }
    }
  }

  /**
   * The cell of a valid date: its text is the day in decimal without padding, the
   * `prev-month` flag marks a date outside `month`, and the tag says whether some task
   * is dated on it and whether one of those is an emergency.
   */
  lemma DecorateMeaning(tasks: TaskIndex, month: int, d: Date)
    requires Valid(d)
    ensures var c := Decorate(tasks, month, d);
      c.date == d
      && AllDigits(c.text) && Value(c.text) == d.day && 1 <= |c.text| <= 2 && c.text[0] != '0'
      && (c.outside <==> d.month != month)
      && (c.tag.Some? <==> exists i :: 0 <= i < |tasks.items| && tasks.items[i].date == FormatDate(d))
      && (c.tag == Some(Emergency) <==>
            exists i :: 0 <= i < |tasks.items| && tasks.items[i].date == FormatDate(d)
                        && tasks.items[i].status == Emergency)
  {
  }

  /** One cell per grid date, so the cells form whole weeks too. */
  lemma DateCellsLength(tasks: TaskIndex, year: int, month: Month)
    ensures |DateCells(tasks, year, month)| == |Grid(year, month)|
    ensures |DateCells(tasks, year, month)| in {28, 35, 42}
  {
    MonthViewLemmas.GridLength(year, month);
  }

  /**
   * Cell k of the displayed month: the k-th grid date, flagged exactly when it lies
   * outside the current cells, with the text and the tag of that date.
   */
  lemma DateCellAt(tasks: TaskIndex, year: int, month: Month, k: int)
    requires 0 <= k < |DateCells(tasks, year, month)|
    ensures var c := DateCells(tasks, year, month)[k];
      var lead := |Leading(year, month)|;
      c.date == Grid(year, month)[k] && Valid(c.date)
      && AllDigits(c.text) && Value(c.text) == c.date.day
      && (c.outside <==> !(lead <= k < lead + DaysInMonth(CivilYear(year), month)))
      && (c.tag.Some? <==> tasks.HaveTask(Some(c.date)))
      && (c.tag == Some(Emergency) <==> tasks.HaveEmergency(Some(c.date)))
  {
    var g := Grid(year, month);
    MonthViewLemmas.GridValid(year, month);
    MonthViewLemmas.GridMonthFlags(year, month);
    assert DateCells(tasks, year, month)[k] == Decorate(tasks, month, g[k]);
    DecorateMeaning(tasks, month, g[k]);
  }

  /** The current cells read 1, 2, .. n and are not flagged. */
  lemma CurrentDateCell(tasks: TaskIndex, year: int, month: Month, j: int)
    requires 0 <= j < DaysInMonth(CivilYear(year), month)
    ensures var lead := |Leading(year, month)|;
      lead + j < |DateCells(tasks, year, month)|
      && var c := DateCells(tasks, year, month)[lead + j];
      c.date == Date(CivilYear(year), month, j + 1) && Value(c.text) == j + 1 && !c.outside
  {
    var l, c := Leading(year, month), Current(year, month);
    MonthViewLemmas.CurrentCells(year, month);
    var g := Grid(year, month);
    assert g[|l| + j] == c[j];
    DateCellsLength(tasks, year, month);
    DateCellAt(tasks, year, month, |l| + j);
  }

  // ---------------------------------------------------------------------------
  // The sample task list in June 2022

  /** June 12 shows a normal tag, June 13 an emergency tag, June 14 none. */
  lemma June2022SampleCells(year: int, month: Month)
    requires Shown(year, month) == YearMonth(2022, 5)
    ensures var c := DateCells(SampleTasks(), year, month);
      |c| == 35
      && c[14].date == Date(2022, 5, 12) && c[14].tag == Some(Normal)
      && c[15].date == Date(2022, 5, 13) && c[15].tag == Some(Emergency)
      && c[16].date == Date(2022, 5, 14) && c[16].tag == None
  {
    MonthViewLemmas.June2022Size(year, month);
    MonthViewLemmas.June2022FirstDay(year, month);
    SampleCell(year, month, 11);
    SampleCell(year, month, 12);
    SampleCell(year, month, 13);
    TaskLemmas.SampleTwelfth(Date(2022, 5, 12));
    TaskLemmas.SampleThirteenth(Date(2022, 5, 13));
    TaskLemmas.SampleFourteenth(Date(2022, 5, 14));
  }

  lemma SampleCell(year: int, month: Month, j: int)
    requires Shown(year, month) == YearMonth(2022, 5) && FirstDay(year, month) == 3
    requires 0 <= j < 30
    ensures var c := DateCells(SampleTasks(), year, month);
      3 + j < |c| && c[3 + j] == Decorate(SampleTasks(), month, Date(2022, 5, j + 1))
  {
    MonthViewLemmas.CurrentLength(year, month);
    CurrentDateCell(SampleTasks(), year, month, j);
    MonthViewLemmas.LeadingLength(year, month);
  }
}
