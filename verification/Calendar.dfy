/** The proleptic Gregorian calendar: dates, their order, and their day numbers. */
module Calendar {

  datatype Day = Day(year: int, month: int, day: int)

  predicate Valid(d: Day) { 1 <= d.month <= 12 && 1 <= d.day <= DaysInMonth(d.year, d.month) }

  type Date = d: Day | Valid(d) witness Day(1970, 1, 1)

  predicate IsLeap(year: int) { year % 4 == 0 && (year % 100 != 0 || year % 400 == 0) }

  function DaysInMonth(year: int, month: int): (n: int)
    ensures 28 <= n <= 31
  {
    if month == 2 then (if IsLeap(year) then 29 else 28)
    else if month == 4 || month == 6 || month == 9 || month == 11 then 30
    else 31
  }

  predicate Before(a: Day, b: Day) {
    a.year < b.year
    || (a.year == b.year && a.month < b.month)
    || (a.year == b.year && a.month == b.month && a.day < b.day)
  }

  predicate NotAfter(a: Day, b: Day) { !Before(b, a) }

  lemma MonthLengths(year: int)
    ensures DaysInMonth(year, 1) == 31 && DaysInMonth(year, 3) == 31 && DaysInMonth(year, 5) == 31
    ensures DaysInMonth(year, 7) == 31 && DaysInMonth(year, 8) == 31 && DaysInMonth(year, 10) == 31
    ensures DaysInMonth(year, 4) == 30 && DaysInMonth(year, 6) == 30 && DaysInMonth(year, 9) == 30
    ensures DaysInMonth(year, 11) == 30 && DaysInMonth(year, 12) == 31
  {
  }

  /** The year 2000 was a leap year, 1900 was not. */
  lemma FebruaryLength(year: int)
    ensures DaysInMonth(year, 2)
      == if year % 400 == 0 then 29 else if year % 100 == 0 then 28 else if year % 4 == 0 then 29 else 28
  {
    HundredsAreFours(year);
  }

  // --- Day numbers -------------------------------------------------------------------------

  function DaysBeforeYear(year: int): int {
    var past := year - 1;
    past * 365 + past / 4 - past / 100 + past / 400
  }

  /** The days of a year that come before one of its months. */
  function DaysBeforeMonth(year: int, month: int): int
    requires 1 <= month <= 13
    decreases month
  {
    if month == 1 then 0 else DaysBeforeMonth(year, month - 1) + DaysInMonth(year, month - 1)
  }

  /** The day number, counting 1 January of year 1 as day 1. */
  function Ordinal(d: Date): int {
    DaysBeforeYear(d.year) + DaysBeforeMonth(d.year, d.month) + d.day
  }

  /** 0 is Monday, 6 is Sunday. */
  function Weekday(d: Date): int { (Ordinal(d) + 6) % 7 }

  lemma YearLength(year: int)
    ensures DaysBeforeMonth(year, 13) == if IsLeap(year) then 366 else 365
  {
  }

  lemma NextYearStarts(year: int)
    ensures DaysBeforeYear(year + 1) == DaysBeforeYear(year) + DaysBeforeMonth(year, 13)
  {
    YearLength(year);
    QuotientStep(year, 4);
    QuotientStep(year, 100);
    QuotientStep(year, 400);
    HundredsAreFours(year);
  }

  lemma QuotientStep(n: int, k: int)
    requires k == 4 || k == 100 || k == 400
    ensures n / k == (n - 1) / k + (if n % k == 0 then 1 else 0)
  {
  }

  lemma HundredsAreFours(n: int)
    ensures n % 100 == 0 ==> n % 4 == 0
    ensures n % 400 == 0 ==> n % 100 == 0
  {
  }

  lemma {:induction false} MonthsInOrder(year: int, early: int, late: int)
    requires 1 <= early <= late <= 13
    ensures DaysBeforeMonth(year, early) <= DaysBeforeMonth(year, late)
    ensures early < late ==> DaysBeforeMonth(year, early) + DaysInMonth(year, early) <= DaysBeforeMonth(year, late)
    decreases late - early
  {
    if early < late {
      MonthsInOrder(year, early, late - 1);
    }
  }

  lemma {:induction false} YearsInOrder(early: int, late: int)
    requires early < late
    ensures DaysBeforeYear(early) + DaysBeforeMonth(early, 13) <= DaysBeforeYear(late)
    decreases late - early
  {
    hide DaysBeforeYear;
    if early < late - 1 {
      YearsInOrder(early, late - 1);
      YearLength(late - 1);
    }
    NextYearStarts(late - 1);
  }

  /** Day numbers put the dates in calendar order and never repeat. */
  lemma OrdinalOrder(a: Date, b: Date)
    ensures Before(a, b) <==> Ordinal(a) < Ordinal(b)
    ensures a == b <==> Ordinal(a) == Ordinal(b)
  {
    OrdinalIncreases(a, b);
    OrdinalIncreases(b, a);
  }

  lemma OrdinalIncreases(a: Date, b: Date)
    ensures Before(a, b) ==> Ordinal(a) < Ordinal(b)
  {
    if Before(a, b) {
      if a.year < b.year {
        MonthsInOrder(a.year, a.month, 13);
        YearsInOrder(a.year, b.year);
        MonthsInOrder(b.year, 1, b.month);
      } else {
        MonthsInOrder(a.year, a.month, b.month);
      }
    }
  }

  // --- One day on, one day back ------------------------------------------------------------

  function NextDay(d: Date): (n: Date)
    ensures Before(d, n)
  {
    if d.day < DaysInMonth(d.year, d.month) then Day(d.year, d.month, d.day + 1)
    else if d.month < 12 then Day(d.year, d.month + 1, 1)
    else Day(d.year + 1, 1, 1)
  }

  function PreviousDay(d: Date): (p: Date)
    ensures Before(p, d) && NextDay(p) == d
  {
    if 1 < d.day then Day(d.year, d.month, d.day - 1)
    else if 1 < d.month then Day(d.year, d.month - 1, DaysInMonth(d.year, d.month - 1))
    else Day(d.year - 1, 12, 31)
  }

  lemma NextDayOrdinal(d: Date)
    ensures Ordinal(NextDay(d)) == Ordinal(d) + 1
  {
    hide DaysBeforeYear;
    if d.day == DaysInMonth(d.year, d.month) && d.month == 12 {
      NextYearStarts(d.year);
    }
  }

  /** `n` days after `d`. */
  function AddDays(d: Date, n: nat): Date {
    if n == 0 then d else NextDay(AddDays(d, n - 1))
  }

  lemma {:induction false} AddDaysOrdinal(d: Date, n: nat)
    ensures Ordinal(AddDays(d, n)) == Ordinal(d) + n
  {
    if n > 0 {
      AddDaysOrdinal(d, n - 1);
      NextDayOrdinal(AddDays(d, n - 1));
    }
  }

  /** Every later date is reached by counting days. */
  lemma AddDaysReaches(d: Date, later: Date)
    requires NotAfter(d, later)
    ensures Ordinal(d) <= Ordinal(later) && AddDays(d, Ordinal(later) - Ordinal(d)) == later
  {
    OrdinalOrder(d, later);
    OrdinalOrder(later, d);
    AddDaysOrdinal(d, Ordinal(later) - Ordinal(d));
    OrdinalOrder(AddDays(d, Ordinal(later) - Ordinal(d)), later);
  }
}
