/** Which days the company works, how many there are in a range, and how many calendar days of a month
    an employee is on the payroll. */
module WorkingDays {
  import opened Calendar
  import opened Wrappers

  const SATURDAY := 5
  const POLICY_EFFECTIVE_DATE: Date := Day(2026, 9, 7)

  /** The 2nd and 4th Saturdays of a month are off. */
  predicate IsWorkingSaturday(d: Date) {
    var nth := (d.day - 1) / 7 + 1;
    nth != 2 && nth != 4
  }

  predicate IsWorkingDay(d: Date, workingDaysPerWeek: int) {
    if Weekday(d) >= workingDaysPerWeek then false
    else if workingDaysPerWeek == 6 && Weekday(d) == SATURDAY && NotAfter(POLICY_EFFECTIVE_DATE, d) then
      IsWorkingSaturday(d)
    else true
  }

  function FirstOf(year: int, month: int): Date
    requires 1 <= month <= 12
  {
    Day(year, month, 1)
  }

  function LastOf(year: int, month: int): Date
    requires 1 <= month <= 12
  {
    Day(year, month, DaysInMonth(year, month))
  }

  /** The working dates among the first `n` days of a month, in order. */
  function WeekdaysUpTo(year: int, month: int, n: nat, workingDaysPerWeek: int): seq<Date>
    requires 1 <= month <= 12 && n <= DaysInMonth(year, month)
  {
    if n == 0 then [] else
    var earlier := WeekdaysUpTo(year, month, n - 1, workingDaysPerWeek);
    if IsWorkingDay(Day(year, month, n), workingDaysPerWeek) then earlier + [Day(year, month, n)] else earlier
  }

  function WeekdaysInMonth(year: int, month: int, workingDaysPerWeek: int): seq<Date>
    requires 1 <= month <= 12
  {
    WeekdaysUpTo(year, month, DaysInMonth(year, month), workingDaysPerWeek)
  }

  // --- The set of dates in a range -------------------------------------------------------------

  /** The `n` days from `start` on. */
  function DaysFrom(start: Date, n: nat): set<Date> {
    if n == 0 then {} else DaysFrom(start, n - 1) + {AddDays(start, n - 1)}
  }

  function DaysBetween(start: Date, end: Date): set<Date> {
    if Before(end, start) || Ordinal(end) < Ordinal(start) then {}
    else DaysFrom(start, Ordinal(end) - Ordinal(start) + 1)
  }

  lemma {:induction false} DaysFromAre(start: Date, n: nat, d: Date)
    ensures d in DaysFrom(start, n) <==> Ordinal(start) <= Ordinal(d) < Ordinal(start) + n
  {
    if n > 0 {
      DaysFromAre(start, n - 1, d);
      AddDaysOrdinal(start, n - 1);
      OrdinalOrder(d, AddDays(start, n - 1));
    }
  }

  /** A range holds the dates that are neither before its start nor after its end, and no others. */
  lemma DaysBetweenAre(start: Date, end: Date, d: Date)
    ensures d in DaysBetween(start, end) <==> NotAfter(start, d) && NotAfter(d, end)
  {
    OrdinalOrder(start, end);
    OrdinalOrder(end, start);
    OrdinalOrder(d, start);
    OrdinalOrder(end, d);
    if NotAfter(start, end) {
      DaysFromAre(start, Ordinal(end) - Ordinal(start) + 1, d);
    }
  }

  predicate Counts(d: Date, holidays: set<Date>, workingDaysPerWeek: int) {
    IsWorkingDay(d, workingDaysPerWeek) && d !in holidays
  }

  function Counted(days: set<Date>, holidays: set<Date>, workingDaysPerWeek: int): set<Date> {
    set d | d in days && Counts(d, holidays, workingDaysPerWeek)
  }

  /** The working dates of a range that are not holidays. */
  function WorkingDates(start: Date, end: Date, holidays: set<Date>, workingDaysPerWeek: int): set<Date> {
    Counted(DaysBetween(start, end), holidays, workingDaysPerWeek)
  }

  lemma WorkingDatesAre(start: Date, end: Date, holidays: set<Date>, workingDaysPerWeek: int, d: Date)
    ensures d in WorkingDates(start, end, holidays, workingDaysPerWeek) <==>
      NotAfter(start, d) && NotAfter(d, end) && IsWorkingDay(d, workingDaysPerWeek) && d !in holidays
  {
    DaysBetweenAre(start, end, d);
  }

  /** Each holiday on a working date of the range takes one away, and no other does. */
  lemma HolidaysTakeTheirDates(start: Date, end: Date, holidays: set<Date>, workingDaysPerWeek: int)
    ensures var all := WorkingDates(start, end, {}, workingDaysPerWeek);
      |WorkingDates(start, end, holidays, workingDaysPerWeek)| == |all| - |all * holidays|
  {
    var all := WorkingDates(start, end, {}, workingDaysPerWeek);
    var left := WorkingDates(start, end, holidays, workingDaysPerWeek);
    assert left == all - holidays && all == left + all * holidays && left !! all * holidays;
  }

  // --- Counting them ----------------------------------------------------------------------------

  /** The day-by-day count of the source. */
  method WorkingDaysBetween(start: Date, end: Date, holidays: set<Date>, workingDaysPerWeek: int) returns (total: int)
    ensures total == |WorkingDates(start, end, holidays, workingDaysPerWeek)|
  {
    hide Ordinal, NextDay, IsWorkingDay, Before, AddDays, DaysFrom, Counted;
    OrdinalOrder(start, end);
    OrdinalOrder(end, start);
    NothingCounted(start, holidays, workingDaysPerWeek);
    if Before(end, start) {
      return 0;
    }
    total := 0;
    var current := start;
    ghost var n := 0;
    while NotAfter(current, end)
      invariant current == AddDays(start, n) && Ordinal(current) == Ordinal(start) + n
      invariant Ordinal(current) <= Ordinal(end) + 1
      invariant total == |Counted(DaysFrom(start, n), holidays, workingDaysPerWeek)|
      decreases Ordinal(end) + 1 - Ordinal(current)
    {
      CountedGrows(start, n, holidays, workingDaysPerWeek);
      OrdinalOrder(end, current);
      NextDayOrdinal(current);
      OneDayMore(start, n);
      if IsWorkingDay(current, workingDaysPerWeek) && current !in holidays {
        total := total + 1;
      }
      current := NextDay(current);
      n := n + 1;
    }
    OrdinalOrder(end, current);
  }

  lemma OneDayMore(start: Date, n: nat)
    ensures AddDays(start, n + 1) == NextDay(AddDays(start, n))
  {
  }

  lemma NothingCounted(start: Date, holidays: set<Date>, workingDaysPerWeek: int)
    ensures AddDays(start, 0) == start && Counted(DaysFrom(start, 0), holidays, workingDaysPerWeek) == {}
    ensures Counted({}, holidays, workingDaysPerWeek) == {}
  {
  }

  lemma CountedGrows(start: Date, n: nat, holidays: set<Date>, workingDaysPerWeek: int)
    ensures |Counted(DaysFrom(start, n + 1), holidays, workingDaysPerWeek)|
      == |Counted(DaysFrom(start, n), holidays, workingDaysPerWeek)|
         + if Counts(AddDays(start, n), holidays, workingDaysPerWeek) then 1 else 0
  {
    AddDaysOrdinal(start, n);
    DaysFromAre(start, n, AddDays(start, n));
    CountedPlusOne(DaysFrom(start, n), AddDays(start, n), holidays, workingDaysPerWeek);
  }

  lemma CountedPlusOne(days: set<Date>, d: Date, holidays: set<Date>, workingDaysPerWeek: int)
    requires d !in days
    ensures |Counted(days + {d}, holidays, workingDaysPerWeek)|
      == |Counted(days, holidays, workingDaysPerWeek)| + if Counts(d, holidays, workingDaysPerWeek) then 1 else 0
  {
    hide Counts;
    var before, after := Counted(days, holidays, workingDaysPerWeek), Counted(days + {d}, holidays, workingDaysPerWeek);
    if Counts(d, holidays, workingDaysPerWeek) {
      assert after == before + {d};
    } else {
      assert after == before;
    }
  }

  /** Counting two adjoining ranges counts each date of the whole once. */
  lemma CountIsAdditive(start: Date, middle: Date, end: Date, holidays: set<Date>, workingDaysPerWeek: int)
    requires NotAfter(start, middle) && NotAfter(middle, end)
    ensures |WorkingDates(start, middle, holidays, workingDaysPerWeek)|
      + |WorkingDates(NextDay(middle), end, holidays, workingDaysPerWeek)|
      == |WorkingDates(start, end, holidays, workingDaysPerWeek)|
  {
    var left := WorkingDates(start, middle, holidays, workingDaysPerWeek);
    var right := WorkingDates(NextDay(middle), end, holidays, workingDaysPerWeek);
    forall d: Date
      ensures d in DaysBetween(start, end) <==>
        d in DaysBetween(start, middle) || d in DaysBetween(NextDay(middle), end)
      ensures !(d in DaysBetween(start, middle) && d in DaysBetween(NextDay(middle), end))
    {
      RangesAdjoin(start, middle, end, d);
    }
    assert left !! right;
    assert left + right == WorkingDates(start, end, holidays, workingDaysPerWeek);
  }

  lemma RangesAdjoin(start: Date, middle: Date, end: Date, d: Date)
    requires NotAfter(start, middle) && NotAfter(middle, end)
    ensures d in DaysBetween(start, end) <==> d in DaysBetween(start, middle) || d in DaysBetween(NextDay(middle), end)
    ensures !(d in DaysBetween(start, middle) && d in DaysBetween(NextDay(middle), end))
  {
    DaysBetweenAre(start, end, d);
    DaysBetweenAre(start, middle, d);
    DaysBetweenAre(NextDay(middle), end, d);
  }

  /** Over a whole month without holidays, the range count and the month's list agree. */
  lemma FullMonthCountsItsWeekdays(year: int, month: int, workingDaysPerWeek: int)
    requires 1 <= month <= 12
    ensures |WorkingDates(FirstOf(year, month), LastOf(year, month), {}, workingDaysPerWeek)|
      == |WeekdaysInMonth(year, month, workingDaysPerWeek)|
  {
    var first, last := FirstOf(year, month), LastOf(year, month);
    WeekdaysUpToCount(year, month, DaysInMonth(year, month), workingDaysPerWeek);
    MonthSpan(year, month);
  }

  lemma {:induction false} WeekdaysUpToCount(year: int, month: int, n: nat, workingDaysPerWeek: int)
    requires 1 <= month <= 12 && n <= DaysInMonth(year, month)
    ensures |WeekdaysUpTo(year, month, n, workingDaysPerWeek)|
      == |Counted(DaysFrom(FirstOf(year, month), n), {}, workingDaysPerWeek)|
  {
    hide Ordinal, IsWorkingDay;
    if n > 0 {
      WeekdaysUpToCount(year, month, n - 1, workingDaysPerWeek);
      CountedGrows(FirstOf(year, month), n - 1, {}, workingDaysPerWeek);
      DayOfMonth(year, month, n);
    }
  }

  lemma {:induction false} DayOfMonth(year: int, month: int, n: nat)
    requires 1 <= month <= 12 && 1 <= n <= DaysInMonth(year, month)
    ensures AddDays(FirstOf(year, month), n - 1) == Day(year, month, n)
  {
    if n > 1 {
      DayOfMonth(year, month, n - 1);
    }
  }

  // --- Weekdays ---------------------------------------------------------------------------------

  /** Weekdays follow each other in sevens, and the policy takes effect on a Monday. */
  lemma WeekdaysCycle(d: Date)
    ensures Weekday(NextDay(d)) == (Weekday(d) + 1) % 7
    ensures Weekday(POLICY_EFFECTIVE_DATE) == 0
  {
    hide Ordinal;
    NextDayOrdinal(d);
    PolicyDayNumber();
  }

  lemma PolicyDayNumber()
    ensures Ordinal(POLICY_EFFECTIVE_DATE) == 739_866
  {
    assert DaysBeforeMonth(2026, 9) == 243;
  }

  /** A week of `n` days is its first `n` from Monday; only a week of six has Saturdays off, from 7 September 2026
      on: those dated 8 to 14 and 22 to 28. */
  lemma WorkingDaysOfWeek(d: Date, n: int)
    ensures n != 6 ==> (IsWorkingDay(d, n) <==> Weekday(d) < n)
    ensures IsWorkingDay(d, 6) <==>
      Weekday(d) < 5
      || (Weekday(d) == 5 && (Before(d, Day(2026, 9, 7)) || d.day <= 7 || 15 <= d.day <= 21 || 29 <= d.day))
  {
    hide Ordinal;
  }

  // --- The alternate-Saturday rule --------------------------------------------------------------

  function MonSatDates(year: int, month: int): set<Date>
    requires 1 <= month <= 12
  {
    set d | d in DaysBetween(FirstOf(year, month), LastOf(year, month)) && Weekday(d) <= SATURDAY
  }

  /** The one Saturday among the seven days of a month from the `from`-th on. */
  function SaturdayFrom(year: int, month: int, from: int): Date
    requires 1 <= month <= 12 && 1 <= from <= 22
  {
    Day(year, month, from + (SATURDAY - Weekday(Day(year, month, from))) % 7)
  }

  lemma OneSaturdayAWeek(year: int, month: int, from: int, d: Date)
    requires 1 <= month <= 12 && 1 <= from <= 22
    requires d.year == year && d.month == month && from <= d.day < from + 7
    ensures Weekday(d) == SATURDAY <==> d == SaturdayFrom(year, month, from)
  {
    hide Ordinal;
    var first := Day(year, month, from);
    SameMonthOrdinal(first, d);
    DaysLater(Ordinal(first) + 6, d.day - from);
  }

  lemma SameMonthOrdinal(a: Date, b: Date)
    requires a.year == b.year && a.month == b.month
    ensures Ordinal(b) - Ordinal(a) == b.day - a.day
  {
    hide DaysBeforeYear, DaysBeforeMonth;
  }

  lemma DaysLater(n: int, k: int)
    requires 0 <= k < 7
    ensures (n + k) % 7 == SATURDAY <==> k == (SATURDAY - n % 7) % 7
  {
  }

  /** In a six-day week, every month from September 2026 works its Mondays to Saturdays less exactly
      two of them: the second and the fourth Saturday. */
  lemma TwoSaturdaysOff(year: int, month: int)
    requires 1 <= month <= 12 && (year > 2026 || (year == 2026 && month >= 9))
    ensures |WorkingDates(FirstOf(year, month), LastOf(year, month), {}, 6)| == |MonSatDates(year, month)| - 2
  {
    var first, last := FirstOf(year, month), LastOf(year, month);
    var working, monSat := WorkingDates(first, last, {}, 6), MonSatDates(year, month);
    var second, fourth := SaturdayFrom(year, month, 8), SaturdayFrom(year, month, 22);
    forall d: Date
      ensures d in working <==> d in monSat && d != second && d != fourth
    {
      DaysBetweenAre(first, last, d);
      if d.year == year && d.month == month {
        WorkingInSixDayWeek(d);
      }
    }
    DaysBetweenAre(first, last, second);
    DaysBetweenAre(first, last, fourth);
    OneSaturdayAWeek(year, month, 8, second);
    OneSaturdayAWeek(year, month, 22, fourth);
    assert monSat == working + {second, fourth};
    assert working !! {second, fourth} && second != fourth;
  }

  lemma WorkingInSixDayWeek(d: Date)
    requires d.year > 2026 || (d.year == 2026 && d.month >= 9)
    ensures IsWorkingDay(d, 6) <==>
      Weekday(d) <= SATURDAY && d != SaturdayFrom(d.year, d.month, 8) && d != SaturdayFrom(d.year, d.month, 22)
  {
    hide Ordinal;
    var nth := (d.day - 1) / 7 + 1;
    if 8 <= d.day < 15 {
      OneSaturdayAWeek(d.year, d.month, 8, d);
    } else if 22 <= d.day < 29 {
      OneSaturdayAWeek(d.year, d.month, 22, d);
    }
  }

  /** Up to August 2026 the same week worked every Monday to Saturday. */
  lemma NoSaturdayOffBeforePolicy(year: int, month: int)
    requires 1 <= month <= 12 && (year < 2026 || (year == 2026 && month < 9))
    ensures WorkingDates(FirstOf(year, month), LastOf(year, month), {}, 6) == MonSatDates(year, month)
  {
    hide Ordinal;
    forall d: Date | d in DaysBetween(FirstOf(year, month), LastOf(year, month))
      ensures IsWorkingDay(d, 6) <==> Weekday(d) <= SATURDAY
    {
      DaysBetweenAre(FirstOf(year, month), LastOf(year, month), d);
    }
  }

  // --- Days on the payroll -------------------------------------------------------------------------

  function PayrollWindow(year: int, month: int, hireDate: Option<Date>): (Date, Date)
    requires 1 <= month <= 12
  {
    var first, last := FirstOf(year, month), LastOf(year, month);
    if hireDate.Some? && Before(first, hireDate.value) then (hireDate.value, last) else (first, last)
  }

  function PayableBaseDays(year: int, month: int, hireDate: Option<Date>): int
    requires 1 <= month <= 12
  {
    var (start, end) := PayrollWindow(year, month, hireDate);
    if NotAfter(start, end) then Ordinal(end) - Ordinal(start) + 1 else 0
  }

  /** The base is the number of the month's dates on which the person had already joined: all of them
      for someone hired by the first, none for someone hired later than the month. */
  lemma PayableBaseDaysCountsJoinedDates(year: int, month: int, hireDate: Option<Date>)
    requires 1 <= month <= 12
    ensures var days := DaysBetween(FirstOf(year, month), LastOf(year, month));
      && PayableBaseDays(year, month, hireDate)
         == |set d | d in days && (hireDate.Some? ==> NotAfter(hireDate.value, d))|
      && 0 <= PayableBaseDays(year, month, hireDate) <= DaysInMonth(year, month)
  {
    hide Ordinal, DaysBetween;
    var first, last := FirstOf(year, month), LastOf(year, month);
    var (start, end) := PayrollWindow(year, month, hireDate);
    var joined := set d | d in DaysBetween(first, last) && (hireDate.Some? ==> NotAfter(hireDate.value, d));
    forall d: Date
      ensures d in DaysBetween(start, end) <==> d in joined
    {
      DaysBetweenAre(start, end, d);
      DaysBetweenAre(first, last, d);
    }
    assert joined == DaysBetween(start, end);
    DaysBetweenCount(start, end);
    OrdinalOrder(first, start);
    MonthSpan(year, month);
  }

  lemma MonthSpan(year: int, month: int)
    requires 1 <= month <= 12
    ensures Ordinal(LastOf(year, month)) - Ordinal(FirstOf(year, month)) + 1 == DaysInMonth(year, month)
  {
  }

  lemma DaysBetweenCount(start: Date, end: Date)
    ensures |DaysBetween(start, end)| == if NotAfter(start, end) then Ordinal(end) - Ordinal(start) + 1 else 0
  {
    hide Ordinal;
    OrdinalOrder(start, end);
    OrdinalOrder(end, start);
    if NotAfter(start, end) {
      DaysFromCount(start, Ordinal(end) - Ordinal(start) + 1);
    }
  }

  lemma {:induction false} DaysFromCount(start: Date, n: nat)
    ensures |DaysFrom(start, n)| == n
  {
    hide Ordinal, AddDays;
    if n > 0 {
      DaysFromCount(start, n - 1);
      AddDaysOrdinal(start, n - 1);
      DaysFromAre(start, n - 1, AddDays(start, n - 1));
    }
  }
}
