/** A slip cut down to the days actually paid. */
module Proration {
  import opened Wrappers
  import opened Numbers
  import opened Rounding
  import opened SalarySlip

  /** The payable share of the month, between none of it and all of it. The source computes it in
      floating point; here it is the exact quotient. */
  function AttendanceRatio(payableDays: real, totalDays: int): (ratio: real)
    ensures 0.0 <= ratio <= 1.0
  {
    if totalDays <= 0 then 1.0 else
    var share := payableDays / totalDays as real;
    if share < 0.0 then 0.0 else if share > 1.0 then 1.0 else share
  }

  function Part(whole: real, ratio: real): real { whole * ratio }

  function Scale(minor: int, ratio: real): int { RoundHalfEven(Part(minor as real, ratio)) }

  function Prorate(slip: Slip, payableDays: real, totalDays: int): Slip {
    var ratio := AttendanceRatio(payableDays, totalDays);
    if ratio == 0.0 then ZERO_SLIP else
    var employeePf := Scale(slip.employeePf, ratio);
    var totalDeduction := employeePf + slip.professionalTax + slip.incomeTax;
    var gross := Scale(slip.gross, ratio);
    Slip(Scale(slip.ctc, ratio), Scale(slip.basic, ratio), Scale(slip.hra, ratio), Scale(slip.special, ratio),
      Scale(slip.employerPf, ratio), gross, employeePf, slip.professionalTax, slip.incomeTax,
      totalDeduction, gross - totalDeduction)
  }

  /** The earnings block of the printed slip: Basic and everything else. */
  function EarningsRows(slip: Slip, reimbursement: int): seq<(string, int)> {
    [("Basic", slip.basic), ("Fixed Allowance", slip.hra + slip.special)]
    + (if reimbursement > 0 then [("Reimbursements", reimbursement)] else [])
  }

  function RowTotal(rows: seq<(string, int)>): int {
    if rows == [] then 0 else rows[0].1 + RowTotal(rows[1..])
  }

  // --- Parts of an amount --------------------------------------------------------------------

  lemma PartOfWhole(whole: real, ratio: real)
    requires 0.0 <= whole && 0.0 <= ratio <= 1.0
    ensures 0.0 <= Part(whole, ratio) <= whole
  {
  }

  lemma PartOfMore(less: real, more: real, ratio: real)
    requires less <= more && 0.0 <= ratio
    ensures Part(less, ratio) <= Part(more, ratio)
  {
  }

  lemma LargerPart(whole: real, less: real, more: real)
    requires 0.0 <= whole && less <= more
    ensures Part(whole, less) <= Part(whole, more)
  {
  }

  lemma PartOfSum(x: real, y: real, ratio: real)
    ensures Part(x + y, ratio) == Part(x, ratio) + Part(y, ratio)
  {
  }

  lemma ScaleWhole(minor: int)
    ensures Scale(minor, 1.0) == minor
  {
  }

  lemma ScaleNone(minor: int)
    ensures Scale(minor, 0.0) == 0
  {
  }

  // --- Proration ------------------------------------------------------------------------------

  /** Paying every day, or more days than there are, changes no line of a computed slip. */
  lemma FullMonthIsIdentity(ctc: int, cfg: CalcConfig, month: Option<int>, payableDays: real, totalDays: int)
    requires totalDays as real <= payableDays || totalDays <= 0
    ensures var slip := ComputeBreakdown(ctc, cfg, month); Prorate(slip, payableDays, totalDays) == slip
  {
    var slip := ComputeBreakdown(ctc, cfg, month);
    if totalDays > 0 {
      QuotientAtLeastOne(payableDays, totalDays as real);
    }
    forall minor: int ensures Scale(minor, 1.0) == minor {
      ScaleWhole(minor);
    }
  }

  lemma QuotientAtLeastOne(x: real, y: real)
    requires 0.0 < y <= x
    ensures x / y >= 1.0
  {
  }

  /** However few days are paid, the prorated earnings miss the prorated gross by at most two paise,
      and so does the total of the printed earnings rows. */
  lemma EarningsDriftAtMostTwo(ctc: int, cfg: CalcConfig, month: Option<int>, payableDays: real, totalDays: int)
    ensures var paid := Prorate(ComputeBreakdown(ctc, cfg, month), payableDays, totalDays);
      && -2 <= paid.basic + paid.hra + paid.special - paid.gross <= 2
      && -2 <= RowTotal(EarningsRows(paid, 0)) - paid.gross <= 2
  {
    var slip, ratio := ComputeBreakdown(ctc, cfg, month), AttendanceRatio(payableDays, totalDays);
    var paid := Prorate(slip, payableDays, totalDays);
    EarningsRowsTotal(paid, 0);
    ScaleSumDrift(slip.basic, slip.hra, slip.special, ratio);
  }

  lemma ScaleSumDrift(a: int, b: int, c: int, ratio: real)
    ensures -2 <= Scale(a, ratio) + Scale(b, ratio) + Scale(c, ratio) - Scale(a + b + c, ratio) <= 2
  {
    hide Part;
    PartOfSum(a as real, b as real, ratio);
    PartOfSum((a + b) as real, c as real, ratio);
    RoundSumDrift(Part(a as real, ratio), Part(b as real, ratio), Part(c as real, ratio),
      Part((a + b + c) as real, ratio));
  }

  lemma RoundSumDrift(x: real, y: real, z: real, whole: real)
    requires whole == x + y + z
    ensures -2 <= RoundHalfEven(x) + RoundHalfEven(y) + RoundHalfEven(z) - RoundHalfEven(whole) <= 2
  {
  }

  /** Which amount stands under which label. */
  lemma EarningsRowsAre(slip: Slip, reimbursement: int)
    ensures var rows := EarningsRows(slip, reimbursement);
      && |rows| == (if reimbursement > 0 then 3 else 2)
      && rows[0] == ("Basic", slip.basic) && rows[1] == ("Fixed Allowance", slip.hra + slip.special)
      && (reimbursement > 0 ==> rows[2] == ("Reimbursements", reimbursement))
  {
  }

  lemma EarningsRowsTotal(slip: Slip, reimbursement: int)
    ensures RowTotal(EarningsRows(slip, reimbursement)) == slip.basic + slip.hra + slip.special + Max(0, reimbursement)
  {
    var rows := EarningsRows(slip, reimbursement);
    var rest := rows[1..];
    assert rest[0] == ("Fixed Allowance", slip.hra + slip.special);
    assert rest[1..] == if reimbursement > 0 then [("Reimbursements", reimbursement)] else [];
    assert RowTotal(rest[1..]) == Max(0, reimbursement);
  }

  lemma RatioMonotone(fewer: real, more: real, totalDays: int)
    requires fewer <= more
    ensures AttendanceRatio(fewer, totalDays) <= AttendanceRatio(more, totalDays)
  {
  }

  lemma ScaleMonotone(minor: int, less: real, more: real)
    requires 0 <= minor && less <= more
    ensures Scale(minor, less) <= Scale(minor, more)
  {
    hide Part;
    LargerPart(minor as real, less, more);
    RoundHalfEvenMonotone(Part(minor as real, less), Part(minor as real, more));
  }

  /** The no-days slip is what the scaled lines would be, so a paid day more never lowers an
      earning or a provident-fund share that is not negative in the full month. */
  lemma EarningsRiseWithDays(slip: Slip, fewer: real, more: real, totalDays: int)
    requires fewer <= more
    ensures var (less, paid) := (Prorate(slip, fewer, totalDays), Prorate(slip, more, totalDays));
      && (0 <= slip.basic ==> less.basic <= paid.basic)
      && (0 <= slip.hra ==> less.hra <= paid.hra)
      && (0 <= slip.special ==> less.special <= paid.special)
      && (0 <= slip.gross ==> less.gross <= paid.gross)
      && (0 <= slip.ctc ==> less.ctc <= paid.ctc)
      && (0 <= slip.employerPf ==> less.employerPf <= paid.employerPf)
      && (0 <= slip.employeePf ==> less.employeePf <= paid.employeePf)
  {
    RatioMonotone(fewer, more, totalDays);
    forall minor: int ensures Scale(minor, 0.0) == 0 {
      ScaleNone(minor);
    }
    forall minor: int | 0 <= minor
      ensures Scale(minor, AttendanceRatio(fewer, totalDays)) <= Scale(minor, AttendanceRatio(more, totalDays))
    {
      ScaleMonotone(minor, AttendanceRatio(fewer, totalDays), AttendanceRatio(more, totalDays));
    }
  }

  // --- Take-home ------------------------------------------------------------------------------

  /** What proration leaves as it is. */
  function FlatCharges(slip: Slip): int { slip.professionalTax + slip.incomeTax }

  /** The take-home of any positive share is, to the paisa, that share of gross less fund, less the flat charges.
      Between two such shares more days never lower it by more than the one paisa the two roundings can add. */
  lemma NetMovesWithDays(slip: Slip, fewer: real, more: real, totalDays: int)
    requires 0 <= slip.employeePf <= slip.gross
    requires fewer <= more && AttendanceRatio(fewer, totalDays) > 0.0
    ensures var (less, paid) := (Prorate(slip, fewer, totalDays), Prorate(slip, more, totalDays));
      && less.net <= paid.net + 1
      && var exact := Part((slip.gross - slip.employeePf) as real, AttendanceRatio(fewer, totalDays));
         (less.net + FlatCharges(slip)) as real - 1.0 <= exact <= (less.net + FlatCharges(slip)) as real + 1.0
  {
    hide Part, RoundHalfEven, AttendanceRatio;
    RatioMonotone(fewer, more, totalDays);
    ScaledNet(slip, fewer, totalDays);
    ScaledNet(slip, more, totalDays);
    ScaledDifference(slip.gross, slip.employeePf, AttendanceRatio(fewer, totalDays), AttendanceRatio(more, totalDays));
  }

  lemma ScaledNet(slip: Slip, payableDays: real, totalDays: int)
    ensures var (paid, ratio) := (Prorate(slip, payableDays, totalDays), AttendanceRatio(payableDays, totalDays));
      paid.net == if ratio == 0.0 then 0
                  else Scale(slip.gross, ratio) - Scale(slip.employeePf, ratio) - FlatCharges(slip)
  {
  }

  lemma ScaledDifference(gross: int, pf: int, less: real, more: real)
    requires 0 <= pf <= gross && 0.0 <= less <= more
    ensures Scale(gross, less) - Scale(pf, less) <= Scale(gross, more) - Scale(pf, more) + 1
    ensures 0 <= Scale(gross, less) - Scale(pf, less)
    ensures var (exact, d) := (Part((gross - pf) as real, less), (Scale(gross, less) - Scale(pf, less)) as real);
      d - 1.0 <= exact <= d + 1.0
  {
    hide Part;
    PartOfSum(pf as real, (gross - pf) as real, less);
    PartOfSum(pf as real, (gross - pf) as real, more);
    LargerPart((gross - pf) as real, less, more);
    PartOfMore(pf as real, gross as real, less);
    RoundHalfEvenMonotone(Part(pf as real, less), Part(gross as real, less));
    LargerPart(pf as real, less, more);
    if pf < gross && less < more {
      StrictlyLargerPart((gross - pf) as real, less, more);
    }
    RoundDifference(Part(gross as real, less), Part(pf as real, less), Part(gross as real, more),
      Part(pf as real, more));
  }

  lemma StrictlyLargerPart(whole: real, less: real, more: real)
    requires 0.0 < whole && less < more
    ensures Part(whole, less) < Part(whole, more)
  {
  }

  lemma RoundDifference(x: real, y: real, x': real, y': real)
    requires y <= y' && (x - y < x' - y' || (x == y && x' == y') || (x == x' && y == y'))
    ensures RoundHalfEven(x) - RoundHalfEven(y) <= RoundHalfEven(x') - RoundHalfEven(y') + 1
    ensures var d := (RoundHalfEven(x) - RoundHalfEven(y)) as real; d - 1.0 <= x - y <= d + 1.0
  {
  }

  /** Someone paid for no day owes nothing, so a positive share is worse than none when its take-home is negative,
      and that is when the prorated gross less fund does not cover the flat charges. */
  predicate CostsMoney(slip: Slip, payableDays: real, totalDays: int) {
    Prorate(slip, payableDays, totalDays).net < 0
  }

  /** There is a share of the month that costs money exactly when there are flat charges. */
  lemma SomeShareCostsMoneyIff(slip: Slip)
    requires 0 <= slip.employeePf <= slip.gross
    ensures (exists payableDays, totalDays :: CostsMoney(slip, payableDays, totalDays)) <==> 0 < FlatCharges(slip)
    ensures forall payableDays, totalDays :: CostsMoney(slip, payableDays, totalDays) ==>
      var ratio := AttendanceRatio(payableDays, totalDays);
      ratio > 0.0 && Part((slip.gross - slip.employeePf) as real, ratio) < FlatCharges(slip) as real + 1.0
  {
    hide Part;
    forall payableDays, totalDays | CostsMoney(slip, payableDays, totalDays)
      ensures 0 < FlatCharges(slip) && AttendanceRatio(payableDays, totalDays) > 0.0
      ensures var ratio := AttendanceRatio(payableDays, totalDays);
        Part((slip.gross - slip.employeePf) as real, ratio) < FlatCharges(slip) as real + 1.0
    {
      var ratio := AttendanceRatio(payableDays, totalDays);
      ScaledNet(slip, payableDays, totalDays);
      ScaledDifference(slip.gross, slip.employeePf, ratio, ratio);
    }
    if 0 < FlatCharges(slip) {
      var share := 0.25 / (slip.gross + 1) as real;
      TinyShare(slip.gross, slip.employeePf, share);
      assert AttendanceRatio(share, 1) == share by {
        assert share / 1.0 == share;
      }
      ScaledNet(slip, share, 1);
      assert CostsMoney(slip, share, 1);
    }
  }

  lemma TinyShare(gross: int, pf: int, share: real)
    requires 0 <= pf <= gross && share == 0.25 / (gross + 1) as real
    ensures 0.0 < share < 1.0 && Scale(gross, share) == 0 && Scale(pf, share) == 0
  {
    hide Part;
    assert (gross + 1) as real * share == 0.25;
    PartOfSum(gross as real, 1.0, share);
    PartOfMore(0.0, pf as real, share);
    PartOfMore(pf as real, gross as real, share);
    TinyParts(gross, share);
    RoundHalfEvenUnique(Part(gross as real, share), 0);
    RoundHalfEvenUnique(Part(pf as real, share), 0);
  }

  lemma TinyParts(gross: int, share: real)
    requires 0 <= gross && 0.0 < share && (gross + 1) as real * share == 0.25
    ensures 0.0 <= Part(0.0, share) && Part(gross as real, share) <= 0.25 && share < 1.0
  {
    assert gross as real * share + share == 0.25;
    assert 0.0 <= gross as real * share;
  }

  /** Under the default configuration every earning is non-negative and the fund is within the gross, so all of this
      applies: earnings rise with the days, and with any CTC there is a share that costs money. */
  lemma DefaultEarningsNonNegative(ctc: int, month: Option<int>)
    ensures var slip := ComputeBreakdown(ctc, DEFAULT_CONFIG, month);
      && 0 <= slip.basic && 0 <= slip.hra && 0 <= slip.special && 0 <= slip.employeePf <= slip.gross
      && (0 < ctc ==> 0 < FlatCharges(slip))
  {
    if 0 < ctc {
      DefaultEarningsOf(ctc, month);
      DefaultPfWithinGross(ctc, month);
    }
  }

  lemma DefaultEarningsOf(ctc: int, month: Option<int>)
    requires 0 < ctc
    ensures var slip := ComputeBreakdown(ctc, DEFAULT_CONFIG, month);
      0 <= slip.basic && 0 <= slip.hra && 0 <= slip.special
  {
  }

  lemma DefaultPfWithinGross(ctc: int, month: Option<int>)
    requires 0 < ctc
    ensures var slip := ComputeBreakdown(ctc, DEFAULT_CONFIG, month);
      0 <= slip.employeePf <= slip.gross && 0 < FlatCharges(slip)
  {
    var slip := ComputeBreakdown(ctc, DEFAULT_CONFIG, month);
    hide Percent, MonthlyTax;
    DefaultPfBounds(ctc);
    MonthlyTaxNeverOutgrowsGross(Min(0, slip.gross), slip.gross);
    NoTaxBelowReliefLine(Min(0, slip.gross));
  }

  /** A month split between two people is paid once, to the paisa. */
  lemma SplitMonthPaysGrossOnce(slip: Slip, days: real, totalDays: int)
    requires 0 < totalDays && 0.0 <= days <= totalDays as real
    ensures var (first, second) := (Prorate(slip, days, totalDays), Prorate(slip, totalDays as real - days, totalDays));
      -1 <= first.gross + second.gross - slip.gross <= 1
  {
    var n := totalDays as real;
    SharesSumToOne(days, n);
    ProratedGross(slip, days, totalDays);
    ProratedGross(slip, n - days, totalDays);
    ScaleComplement(slip.gross, AttendanceRatio(days, totalDays), AttendanceRatio(n - days, totalDays));
  }

  lemma ProratedGross(slip: Slip, payableDays: real, totalDays: int)
    ensures Prorate(slip, payableDays, totalDays).gross == Scale(slip.gross, AttendanceRatio(payableDays, totalDays))
  {
  }

  lemma ScaleComplement(minor: int, r: real, s: real)
    requires r + s == 1.0
    ensures -1 <= Scale(minor, r) + Scale(minor, s) - minor <= 1
  {
  }

  lemma SharesSumToOne(part: real, whole: real)
    requires 0.0 < whole && 0.0 <= part <= whole
    ensures 0.0 <= part / whole <= 1.0 && 0.0 <= (whole - part) / whole <= 1.0
    ensures part / whole + (whole - part) / whole == 1.0
  {
  }

  predicate IsShareOf(paid: int, full: int, ratio: real) {
    paid as real - 0.5 <= Part(full as real, ratio) <= paid as real + 0.5
  }

  /** On any paid day at all, each earning and provident-fund line is the nearest paisa to its share of the
      full month, the statutory charges stand as they are, and what is not deducted is paid; on none,
      nothing is earned and nothing is owed. */
  lemma ProratedLines(slip: Slip, payableDays: real, totalDays: int)
    ensures var (paid, ratio) := (Prorate(slip, payableDays, totalDays), AttendanceRatio(payableDays, totalDays));
      && IsShareOf(paid.ctc, slip.ctc, ratio) && IsShareOf(paid.basic, slip.basic, ratio)
      && IsShareOf(paid.hra, slip.hra, ratio) && IsShareOf(paid.special, slip.special, ratio)
      && IsShareOf(paid.gross, slip.gross, ratio)
      && IsShareOf(paid.employerPf, slip.employerPf, ratio) && IsShareOf(paid.employeePf, slip.employeePf, ratio)
      && paid.gross == paid.net + paid.totalDeduction
      && paid.totalDeduction == paid.employeePf + paid.professionalTax + paid.incomeTax
      && (ratio > 0.0 ==> paid.professionalTax == slip.professionalTax && paid.incomeTax == slip.incomeTax)
      && (ratio == 0.0 ==> paid == ZERO_SLIP)
  {
  }
}
