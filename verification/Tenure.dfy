/** How long someone has served, in whole months and as an entitlement band. */
module Tenure {
  import opened Calendar
  import opened Numbers

  const MONTHS_IN_YEAR := 12

  datatype TenureStatus = Probation | Confirmed | Tenured

  /** The month's last day, found by stepping back from the first of the next month. */
  function LastDay(year: int, month: int): (last: int)
    requires 1 <= month <= 12
    ensures last == DaysInMonth(year, month)
  {
    if month == 12 then 31 else Ordinal(Day(year, month + 1, 1)) - Ordinal(Day(year, month, 1))
  }

  function AddMonths(start: Date, months: int): Date {
    var total := start.month - 1 + months;
    var year, month := start.year + total / 12, total % 12 + 1;
    Day(year, month, Min(start.day, LastDay(year, month)))
  }

  /** The calendar month a date falls in, as one number. */
  function MonthIndex(d: Date): int { 12 * d.year + d.month - 1 }

  lemma LaterMonthIsLater(a: Date, b: Date)
    ensures MonthIndex(a) < MonthIndex(b) ==> Before(a, b)
    ensures MonthIndex(a) == MonthIndex(b) ==> a.year == b.year && a.month == b.month
  {
  }

  lemma AddMonthsIndex(start: Date, months: int)
    ensures MonthIndex(AddMonths(start, months)) == MonthIndex(start) + months
  {
  }

  lemma AddMonthsIncreases(start: Date, fewer: int, more: int)
    requires fewer < more
    ensures Before(AddMonths(start, fewer), AddMonths(start, more))
  {
    AddMonthsIndex(start, fewer);
    AddMonthsIndex(start, more);
    LaterMonthIsLater(AddMonths(start, fewer), AddMonths(start, more));
  }

  lemma AddMonthsClamps(start: Date, months: int)
    ensures var d := AddMonths(start, months); d.day == Min(start.day, DaysInMonth(d.year, d.month))
  {
  }

  lemma AddNoMonths(start: Date)
    ensures AddMonths(start, 0) == start
  {
  }

  // --- The fewest months that reach a date --------------------------------------------------

  function MonthsToReach(start: Date, target: Date): (months: nat) {
    var span := MonthIndex(target) - MonthIndex(start);
    if span < 0 then 0
    else if NotAfter(target, AddMonths(start, span)) then span
    else span + 1
  }

  ghost predicate IsLeastReaching(start: Date, target: Date, months: int) {
    && 0 <= months
    && NotAfter(target, AddMonths(start, months))
    && forall k :: 0 <= k < months ==> Before(AddMonths(start, k), target)
  }

  lemma SpanPlusOneReaches(start: Date, target: Date, months: int)
    requires MonthIndex(start) + months > MonthIndex(target)
    ensures Before(target, AddMonths(start, months))
  {
    AddMonthsIndex(start, months);
    LaterMonthIsLater(target, AddMonths(start, months));
  }

  lemma FewerMonthsFallShort(start: Date, target: Date, months: int)
    requires MonthIndex(start) + months < MonthIndex(target)
    ensures Before(AddMonths(start, months), target)
  {
    AddMonthsIndex(start, months);
    LaterMonthIsLater(AddMonths(start, months), target);
  }

  /** No whole number of months smaller than MonthsToReach reaches the target, and no other number is least. */
  lemma MonthsToReachIsLeast(start: Date, target: Date)
    ensures IsLeastReaching(start, target, MonthsToReach(start, target))
    ensures forall n :: IsLeastReaching(start, target, n) ==> n == MonthsToReach(start, target)
  {
    var months, span := MonthsToReach(start, target), MonthIndex(target) - MonthIndex(start);
    if months > span {
      SpanPlusOneReaches(start, target, months);
    }
    forall k | 0 <= k < months
      ensures Before(AddMonths(start, k), target)
    {
      if k < span {
        FewerMonthsFallShort(start, target, k);
      }
    }
  }

  /** The search of the source: forward until the date is reached, then back while it still is. */
  method SearchMonthsToReach(start: Date, target: Date) returns (months: int)
    ensures months == MonthsToReach(start, target)
  {
    var span := (target.year - start.year) * 12 + (target.month - start.month);
    months := Max(0, span);
    while Before(AddMonths(start, months), target)
      invariant 0 <= months <= Max(0, span) + 1
      decreases Max(0, span) + 1 - months
    {
      if months > span {
        SpanPlusOneReaches(start, target, months);
      }
      months := months + 1;
    }
    while months > 0 && NotAfter(target, AddMonths(start, months - 1))
      invariant 0 <= months
      invariant NotAfter(target, AddMonths(start, months))
    {
      months := months - 1;
    }
    forall k | 0 <= k < months
      ensures Before(AddMonths(start, k), target)
    {
      if k < months - 1 {
        AddMonthsIncreases(start, k, months - 1);
      }
    }
    MonthsToReachIsLeast(start, target);
    assert IsLeastReaching(start, target, months);
  }

  // --- Two ways to count service -------------------------------------------------------------

  function MonthsCompleted(start: Date, today: Date): int {
    if NotAfter(today, start) then 0 else
    var months := MonthIndex(today) - MonthIndex(start);
    Max(0, if today.day < start.day then months - 1 else months)
  }

  function AnniversariesReached(start: Date, today: Date): int {
    var months := MonthsToReach(start, today);
    if AddMonths(start, months) == today then months else Max(0, months - 1)
  }

  function ProbationEnd(hireDate: Date, probationMonths: int): Date { AddMonths(hireDate, probationMonths) }

  function StatusOn(hireDate: Date, today: Date, probationMonths: int): TenureStatus {
    var months := AnniversariesReached(hireDate, today);
    if months >= MONTHS_IN_YEAR then Tenured
    else if months >= probationMonths then Confirmed
    else Probation
  }

  /** The latest anniversary that has come, and none of the later ones has. */
  lemma AnniversariesReachedIsGreatest(start: Date, today: Date)
    ensures var n := AnniversariesReached(start, today);
      && 0 <= n
      && (if NotAfter(start, today) then NotAfter(AddMonths(start, n), today) else n == 0)
      && forall k :: k > n ==> Before(today, AddMonths(start, k))
  {
    hide AddMonths;
    var months, n := MonthsToReach(start, today), AnniversariesReached(start, today);
    MonthsToReachIsLeast(start, today);
    AddNoMonths(start);
    assert Before(today, start) ==> IsLeastReaching(start, today, 0);
    forall k | k > n
      ensures Before(today, AddMonths(start, k))
    {
      if k > months {
        AddMonthsIncreases(start, months, k);
      }
    }
  }

  /** So an anniversary from the first on has come exactly when it is among those counted. */
  lemma AnniversaryHasCome(start: Date, today: Date, k: int)
    requires 1 <= k
    ensures k <= AnniversariesReached(start, today) <==> NotAfter(AddMonths(start, k), today)
  {
    var n := AnniversariesReached(start, today);
    AnniversariesReachedIsGreatest(start, today);
    if k < n {
      AddMonthsIncreases(start, k, n);
    }
  }

  ghost predicate OnProbationUntilItsEnd(hireDate: Date, probationMonths: int) {
    forall today: Date ::
      StatusOn(hireDate, today, probationMonths) == Probation <==>
        Before(today, ProbationEnd(hireDate, probationMonths))
  }

  /** The band is probation on exactly the days before the shown end date if the configured length is
      one to twelve months, and for no other length. */
  lemma ProbationBandMatchesEndDateIff(hireDate: Date, probationMonths: int)
    ensures OnProbationUntilItsEnd(hireDate, probationMonths) <==> 1 <= probationMonths <= MONTHS_IN_YEAR
  {
    if 1 <= probationMonths <= MONTHS_IN_YEAR {
      forall today: Date
        ensures StatusOn(hireDate, today, probationMonths) == Probation <==>
          Before(today, ProbationEnd(hireDate, probationMonths))
      {
        AnniversaryHasCome(hireDate, today, probationMonths);
      }
    } else if probationMonths < 1 {
      var end := ProbationEnd(hireDate, probationMonths);
      var eve := PreviousDay(end);
      AnniversariesReachedIsGreatest(hireDate, eve);
      assert StatusOn(hireDate, eve, probationMonths) != Probation && Before(eve, end);
    } else {
      var end := ProbationEnd(hireDate, probationMonths);
      var year := AddMonths(hireDate, MONTHS_IN_YEAR);
      AddMonthsIncreases(hireDate, MONTHS_IN_YEAR, probationMonths);
      AnniversaryHasCome(hireDate, year, MONTHS_IN_YEAR);
      assert StatusOn(hireDate, year, probationMonths) == Tenured && Before(year, end);
    }
  }

  /** Someone is tenured from the day their first year is complete, and at no other time. */
  lemma TenuredFromFirstYear(hireDate: Date, today: Date, probationMonths: int)
    ensures StatusOn(hireDate, today, probationMonths) == Tenured <==>
      NotAfter(AddMonths(hireDate, MONTHS_IN_YEAR), today)
  {
    AnniversaryHasCome(hireDate, today, MONTHS_IN_YEAR);
  }

  predicate IsLastOfMonth(d: Date) { d.day == DaysInMonth(d.year, d.month) }

  /** The two counts differ only on the last day of a month too short for the starting day, where the
      clamped anniversary has come and the unclamped one has not. */
  lemma CountsDifferOnlyAtMonthEnd(start: Date, today: Date)
    ensures AnniversariesReached(start, today) - MonthsCompleted(start, today)
      == if Before(start, today) && IsLastOfMonth(today) && today.day < start.day then 1 else 0
  {
    hide AddMonths, DaysInMonth;
    var span := MonthIndex(today) - MonthIndex(start);
    AnniversaryInMonthOf(start, today);
    SpanPlusOneReaches(start, today, span + 1);
    AddNoMonths(start);
    LaterMonthIsLater(today, start);
    LaterMonthIsLater(start, today);
  }

  lemma AnniversaryInMonthOf(start: Date, today: Date)
    ensures AddMonths(start, MonthIndex(today) - MonthIndex(start))
      == Day(today.year, today.month, Min(start.day, DaysInMonth(today.year, today.month)))
  {
    var span := MonthIndex(today) - MonthIndex(start);
    AddMonthsIndex(start, span);
    LaterMonthIsLater(AddMonths(start, span), today);
  }

  /** Shifting in two hops lands no later than shifting at once. It lands on the same day exactly when
      the month stopped over in is long enough for the day the direct shift lands on. */
  lemma TwoHopsNeverLater(start: Date, first: int, second: int)
    ensures var (stop, direct) := (AddMonths(start, first), AddMonths(start, first + second));
      var landed := AddMonths(stop, second);
      && NotAfter(landed, direct)
      && (landed == direct <==> direct.day <= DaysInMonth(stop.year, stop.month))
      && (start.day <= 28 ==> landed == direct)
  {
    hide AddMonths, DaysInMonth, MonthIndex;
    var stop, direct := AddMonths(start, first), AddMonths(start, first + second);
    var landed := AddMonths(stop, second);
    AddMonthsIndex(start, first);
    AddMonthsIndex(start, first + second);
    AddMonthsIndex(stop, second);
    LaterMonthIsLater(landed, direct);
    AddMonthsClamps(start, first);
    AddMonthsClamps(start, first + second);
    AddMonthsClamps(stop, second);
  }

  // --- Accrual ----------------------------------------------------------------------------------

  /** Units credited up front each month and capped at a year's worth; the rate is kept exact. */
  function AccruedUnits(accrualStart: Date, today: Date, perMonth: real): real {
    if Before(today, accrualStart) then 0.0
    else Min(MonthsCompleted(accrualStart, today) + 1, MONTHS_IN_YEAR) as real * perMonth
  }

  /** From any starting day: nothing before it, one month's units on it, one more on every later date with its day
      number or, clamped, on the day after a month that is too short for it, and never more than twelve. */
  lemma AccruedUnitsAre(start: Date, today: Date, perMonth: real)
    ensures Before(today, start) ==> AccruedUnits(start, today, perMonth) == 0.0
    ensures NotAfter(start, today) ==>
      var atMonthEnd := if Before(start, today) && IsLastOfMonth(today) && today.day < start.day then 1 else 0;
      AccruedUnits(start, today, perMonth)
        == Min(1 + AnniversariesReached(start, today) - atMonthEnd, 12) as real * perMonth
  {
    hide AnniversariesReached, MonthsCompleted;
    CountsDifferOnlyAtMonthEnd(start, today);
  }
}
