/**
 * The month grid of the calendar (src/components/Calendar/MonthView.tsx): 42 consecutive
 * days from the Sunday on or before the 1st of the visible month, each with its flags.
 */
module MonthView {
  import opened Dates

  const GridSize: nat := 42

  /** startOfCalendar: the Sunday on or before the first of currentDate's month. */
  function GridStart(currentDate: Date): (s: Date)
    requires ValidDate(currentDate)
    ensures ValidDate(s) && DayOfWeek(s) == 0
    ensures s == StartOfWeek(FirstOfMonth(MonthOf(currentDate)))
  {
    StartOfWeek(MonthDays(currentDate)[0])
  }

  /** calendarDays: the 42 days the grid shows. */
  function CalendarDays(currentDate: Date): (r: seq<Date>)
    requires ValidDate(currentDate)
    ensures |r| == GridSize
  {
    DayRun(GridStart(currentDate), GridSize)
  }

  /** The grid starts on the Sunday 0..6 days before the 1st of the month, and each of
      its 42 days is a real day one after the previous one. */
  lemma CalendarDaysFacts(currentDate: Date)
    requires ValidDate(currentDate)
    ensures var r := CalendarDays(currentDate);
      r[0] == GridStart(currentDate)
      && (forall i :: 0 <= i < GridSize ==> ValidDate(r[i]))
      && (forall i :: 0 <= i < GridSize ==> DayNumber(r[i]) == DayNumber(r[0]) + i)
      && (forall i :: 0 <= i < GridSize - 1 ==> r[i + 1] == NextDay(r[i]))
      && DayNumber(FirstOfMonth(MonthOf(currentDate))) - 6 <= DayNumber(r[0])
      && DayNumber(r[0]) <= DayNumber(FirstOfMonth(MonthOf(currentDate)))
  {
    DayRunFacts(GridStart(currentDate), GridSize);
  }

  /** Every day of the visible month sits in the grid at index offset + day - 1, where the
      offset is the weekday of the 1st, and nowhere else. */
  lemma EveryDayOfMonthOnce(currentDate: Date, x: Date)
    requires ValidDate(currentDate) && ValidDate(x) && MonthOf(x) == MonthOf(currentDate)
    ensures var first := FirstOfMonth(MonthOf(currentDate));
      var k := DayOfWeek(first) + x.day - 1;
      0 <= k < GridSize && CalendarDays(currentDate)[k] == x
      && forall i :: 0 <= i < GridSize && CalendarDays(currentDate)[i] == x ==> i == k
  {
    var ym := MonthOf(currentDate);
    var first := FirstOfMonth(ym);
    var start := GridStart(currentDate);
    var off := DayOfWeek(first);
    var r := CalendarDays(currentDate);
    CalendarDaysFacts(currentDate);
    var k := off + x.day - 1;
    AddDaysAdd(start, off, x.day - 1);
    AddDaysWithinMonth(ym, x.day - 1);
    assert r[k] == x;
  }

  /** One cell of the grid with the flags that style it. */
  datatype Cell = Cell(date: Date, isCurrentMonth: bool, isSelectedDay: bool, isTodayDay: bool)

  /** The grid's cells; selectedDate is the page's selection and now the current day. */
  function Cells(currentDate: Date, selectedDate: Date, now: Date): (cs: seq<Cell>)
    requires ValidDate(currentDate)
    ensures |cs| == GridSize
    ensures forall i :: 0 <= i < GridSize ==> cs[i].date == CalendarDays(currentDate)[i]
    ensures forall i :: 0 <= i < GridSize ==>
      (cs[i].isCurrentMonth <==> cs[i].date.year == currentDate.year && cs[i].date.month == currentDate.month)
    ensures forall i :: 0 <= i < GridSize ==> (cs[i].isSelectedDay <==> cs[i].date == selectedDate)
    ensures forall i :: 0 <= i < GridSize ==> (cs[i].isTodayDay <==> cs[i].date == now)
  {
    var days := CalendarDays(currentDate);
    seq(GridSize, i requires 0 <= i < GridSize => CellOf(days[i], currentDate, selectedDate, now))
  }

  /** The flags of the cell showing day. */
  function CellOf(day: Date, currentDate: Date, selectedDate: Date, now: Date): (c: Cell)
    ensures c.date == day
    ensures c.isCurrentMonth <==> day.year == currentDate.year && day.month == currentDate.month
    ensures c.isSelectedDay <==> day == selectedDate
    ensures c.isTodayDay <==> day == now
  {
    Cell(day, IsSameMonthDate(day, currentDate), IsSameDay(day, selectedDate), IsToday(day, now))
  }

  /** At most one cell is marked selected. */
  lemma AtMostOneSelected(currentDate: Date, selectedDate: Date, now: Date, i: int, j: int)
    requires ValidDate(currentDate)
    requires 0 <= i < GridSize && 0 <= j < GridSize
    requires Cells(currentDate, selectedDate, now)[i].isSelectedDay
    requires Cells(currentDate, selectedDate, now)[j].isSelectedDay
    ensures i == j
  {
    var r := CalendarDays(currentDate);
    CalendarDaysFacts(currentDate);
    assert DayNumber(r[i]) == DayNumber(r[j]);
  }

  /** A selection inside the visible month is marked in exactly the cell of its day. */
  lemma SelectionInMonthIsMarked(currentDate: Date, selectedDate: Date, now: Date)
    requires ValidDate(currentDate) && ValidDate(selectedDate)
    requires MonthOf(selectedDate) == MonthOf(currentDate)
    ensures var k := DayOfWeek(FirstOfMonth(MonthOf(currentDate))) + selectedDate.day - 1;
      0 <= k < GridSize && Cells(currentDate, selectedDate, now)[k].isSelectedDay
      && Cells(currentDate, selectedDate, now)[k].isCurrentMonth
  {
    EveryDayOfMonthOnce(currentDate, selectedDate);
  }
}
