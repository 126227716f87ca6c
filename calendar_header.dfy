/**
 * Month navigation of the calendar header (src/components/Calendar/CalendarHeader.tsx).
 * The header only computes the month one step back or forward and hands it to a callback;
 * the Today button calls its own callback and nothing else.
 */
module CalendarHeader {
  import opened Dates

  /** Months since January of year 0: a reference numbering of (year, month) pairs. */
  function MonthIndex(ym: YearMonth): int {
    12 * ym.year + ym.month - 1
  }

  /** goToPreviousMonth: subMonths(currentDate, 1) on the visible (year, month). */
  function PreviousMonth(ym: YearMonth): (r: YearMonth)
    requires ValidMonth(ym)
    ensures ValidMonth(r)
    ensures MonthIndex(r) == MonthIndex(ym) - 1
  {
    if ym.month == 1 then YearMonth(ym.year - 1, 12) else YearMonth(ym.year, ym.month - 1)
  }

  /** goToNextMonth: addMonths(currentDate, 1) on the visible (year, month). */
  function NextMonth(ym: YearMonth): (r: YearMonth)
    requires ValidMonth(ym)
    ensures ValidMonth(r)
    ensures MonthIndex(r) == MonthIndex(ym) + 1
  {
    if ym.month == 12 then YearMonth(ym.year + 1, 1) else YearMonth(ym.year, ym.month + 1)
  }

  /** A valid (year, month) pair is determined by its month index. */
  lemma MonthIndexInjective(a: YearMonth, b: YearMonth)
    requires ValidMonth(a) && ValidMonth(b) && MonthIndex(a) == MonthIndex(b)
    ensures a == b
  {
  }

  /** Next followed by previous, or previous followed by next, restores the visible month. */
  lemma NextPreviousInverse(ym: YearMonth)
    requires ValidMonth(ym)
    ensures PreviousMonth(NextMonth(ym)) == ym
    ensures NextMonth(PreviousMonth(ym)) == ym
  {
    MonthIndexInjective(PreviousMonth(NextMonth(ym)), ym);
    MonthIndexInjective(NextMonth(PreviousMonth(ym)), ym);
  }

  datatype Button = TodayButton | PreviousButton | NextButton

  /** What the header reports to the page: onDateChange(month) or onTodayClick(). */
  datatype Callback = OnDateChange(month: YearMonth) | OnTodayClick

  /** The callback a button press invokes. */
  function Press(current: YearMonth, b: Button): (c: Callback)
    requires ValidMonth(current)
    ensures c.OnTodayClick? <==> b == TodayButton
    ensures c.OnDateChange? ==> ValidMonth(c.month)
    ensures c.OnDateChange? ==>
      MonthIndex(c.month) == MonthIndex(current) + (if b == NextButton then 1 else -1)
  {
    match b
    case TodayButton => OnTodayClick
    case PreviousButton => OnDateChange(PreviousMonth(current))
    case NextButton => OnDateChange(NextMonth(current))
  }
}
