/**
 * Month navigation, `prev` and `next` of src/Calendar.ts and src/main.ts, as step
 * functions on the displayed (year, month); the two classes update their fields with
 * them.
 */
module Navigation {
  import JsDate

  /** The displayed year and zero-based month. */
  datatype Position = Position(year: int, month: int)

  predicate InRange(p: Position) {
    0 <= p.month < 12
  }

  /** prev: one month back; below 0 the month wraps to 11 and the year decreases. */
  function Prev(p: Position): (r: Position)
    ensures InRange(p) ==> InRange(r)
    ensures p.month <= 0 ==> r == Position(p.year - 1, 11)
    ensures p.month > 0 ==> r == Position(p.year, p.month - 1)
  {
    var prevMonth := p.month - 1;
    if prevMonth < 0 then Position(p.year - 1, 11) else Position(p.year, prevMonth)
  }

  /** next: one month on; above 11 the month wraps to 0 and the year increases. */
  function Next(p: Position): (r: Position)
    ensures InRange(p) ==> InRange(r)
    ensures p.month >= 11 ==> r == Position(p.year + 1, 0)
    ensures p.month < 11 ==> r == Position(p.year, p.month + 1)
  {
    var nextMonth := p.month + 1;
    if nextMonth > 11 then Position(p.year + 1, 0) else Position(p.year, nextMonth)
  }

  /** On an in-range position `next` undoes `prev` and `prev` undoes `next`. */
  lemma PrevNextInverse(p: Position)
    requires InRange(p)
    ensures Next(Prev(p)) == p && Prev(Next(p)) == p
  {
  }

  /**
   * Navigation moves to the month that `new Date(year, month - 1, ..)` and
   * `new Date(year, month + 1, ..)` reach by carrying the month into the year: the
   * month before and the month after.
   */
  lemma NavigationIsMonthCarry(p: Position)
    requires InRange(p)
    ensures var b := JsDate.Normalized(p.year, p.month - 1);
      Prev(p) == Position(b.year, b.month) && b == JsDate.Preceding(JsDate.YearMonth(p.year, p.month))
    ensures var f := JsDate.Normalized(p.year, p.month + 1);
      Next(p) == Position(f.year, f.month) && f == JsDate.Following(JsDate.YearMonth(p.year, p.month))
  {
    if p.month == 0 {
      JsDate.DivModUnique(12 * p.year - 1, p.year - 1, 11);
    } else {
      JsDate.DivModUnique(12 * p.year + p.month - 1, p.year, p.month - 1);
    }
    if p.month == 11 {
      JsDate.DivModUnique(12 * p.year + 12, p.year + 1, 0);
    } else {
      JsDate.DivModUnique(12 * p.year + p.month + 1, p.year, p.month + 1);
    }
  }
}
