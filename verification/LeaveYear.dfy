/** The company leave year, 1 April to 31 March, and what accrues within it. */
module LeaveYear {
  import opened Calendar
  import opened Numbers
  import opened Tenure

  const LEAVE_YEAR_START_MONTH := 4

  datatype Window = Window(start: Date, end: Date)

  function LeaveYearWindow(today: Date): Window {
    var year := if today.month >= LEAVE_YEAR_START_MONTH then today.year else today.year - 1;
    Window(Day(year, LEAVE_YEAR_START_MONTH, 1), PreviousDay(Day(year + 1, LEAVE_YEAR_START_MONTH, 1)))
  }

  predicate Covers(window: Window, d: Date) { NotAfter(window.start, d) && NotAfter(d, window.end) }

  /** The windows tile the calendar: a day lies in its own window and in no other, and the day after
      a window's end opens the next one. */
  lemma WindowsTileCalendar(today: Date, other: Date)
    ensures var window := LeaveYearWindow(today);
      && Covers(window, today)
      && (Covers(window, other) <==> LeaveYearWindow(other) == window)
      && LeaveYearWindow(NextDay(window.end)).start == NextDay(window.end) == AddMonths(window.start, 12)
      && window.start.month == 4 && window.start.day == 1 && window.end.month == 3 && window.end.day == 31
  {
  }

  /** Accrual from the window's start credits one month's units on the first of each of its months, so
      twelve by March; within the window the yearly cap never takes anything away. */
  lemma AccrualCreditsEachMonth(today: Date, perMonth: real)
    ensures var start := LeaveYearWindow(today).start;
      var monthsBegun := MonthIndex(today) - MonthIndex(start) + 1;
      && 1 <= monthsBegun <= MONTHS_IN_YEAR
      && AccruedUnits(start, today, perMonth) == monthsBegun as real * perMonth
      && (monthsBegun == MONTHS_IN_YEAR <==> today.month == 3)
      && AccruedUnits(start, NextDay(today), perMonth) - AccruedUnits(start, today, perMonth)
         == if IsLastOfMonth(today) && today.month != 3 then perMonth else 0.0
  {
    hide NextDay, LeaveYearWindow, MonthIndex, AccruedUnits, IsLastOfMonth;
    var start, next := LeaveYearWindow(today).start, NextDay(today);
    var begun := MonthIndex(today) - MonthIndex(start) + 1;
    MonthsBegun(today);
    AccruedFromFirst(start, today, perMonth);
    AccruedFromFirst(start, next, perMonth);
    OneMoreUnit(begun, perMonth);
  }

  lemma MonthsBegun(today: Date)
    ensures var (start, next) := (LeaveYearWindow(today).start, NextDay(today));
      var begun := MonthIndex(today) - MonthIndex(start) + 1;
      && start.day == 1 && NotAfter(start, today) && NotAfter(start, next)
      && 1 <= begun <= MONTHS_IN_YEAR && (begun == MONTHS_IN_YEAR <==> today.month == 3)
      && MonthIndex(next) == MonthIndex(today) + if IsLastOfMonth(today) then 1 else 0
  {
  }

  lemma OneMoreUnit(n: int, unit: real)
    ensures (n + 1) as real * unit - n as real * unit == unit
  {
  }

  lemma AccruedFromFirst(start: Date, today: Date, perMonth: real)
    requires start.day == 1 && NotAfter(start, today)
    ensures AccruedUnits(start, today, perMonth)
      == Min(MonthIndex(today) - MonthIndex(start) + 1, MONTHS_IN_YEAR) as real * perMonth
  {
    MonthsCompletedFromFirst(start, today);
  }

  lemma MonthsCompletedFromFirst(start: Date, today: Date)
    requires start.day == 1 && NotAfter(start, today)
    ensures MonthsCompleted(start, today) == MonthIndex(today) - MonthIndex(start)
  {
  }
}
