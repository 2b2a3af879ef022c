/** The employer's statutory provident-fund costs, split from the (prorated) Basic and employee share. */
module EmployerContributions {
  import opened Wrappers
  import opened Numbers
  import opened Rounding
  import opened SalarySlip
  import opened Proration

  const WAGE_CEILING := 15_000_00
  const EPS_CAP := 1_250_00

  datatype Contributions = Contributions(epf: int, eps: int, edli: int, admin: int, total: int)

  /** 8.33% of the wage, or the flat cap at and above the wage ceiling. */
  function Eps(basic: int): int {
    if basic >= WAGE_CEILING then EPS_CAP else RoundHalfEven((Max(0, basic) * 833) as real / 10_000.0)
  }

  function Split(basicMinor: int, employeePf: int): Contributions {
    var basic := Max(0, basicMinor);
    var wage := Min(basic, WAGE_CEILING);
    var eps := Eps(basic);
    var epf := Max(0, employeePf - eps);
    var edli := RoundHalfEven((wage * 5) as real / 1_000.0);
    var admin := RoundHalfEven((basic * 5) as real / 1_000.0);
    Contributions(epf, eps, edli, admin, epf + eps + edli + admin)
  }

  predicate HalvesAgree(basic: int, employeePf: int) {
    var split := Split(basic, employeePf);
    split.epf + split.eps == employeePf
  }

  /** The employer's EPF and EPS come to the employee's share or to the EPS, whichever is more. So the
      two halves agree exactly when the employee's share covers the EPS, which nothing in the split enforces. */
  lemma HalvesAgreeIff(basic: int, employeePf: int)
    ensures var split := Split(basic, employeePf);
      && split.epf + split.eps == Max(employeePf, split.eps)
      && (HalvesAgree(basic, employeePf) <==> Eps(Max(0, basic)) <= employeePf)
      && split.total == Max(employeePf, split.eps) + split.edli + split.admin
      && 0 <= split.epf && 0 <= split.eps <= EPS_CAP
  {
  }

  /** The three percentage charges are within half a paisa of the rates, and none is negative. */
  lemma ChargesFollowRates(basicMinor: int, employeePf: int)
    ensures var (split, basic) := (Split(basicMinor, employeePf), Max(0, basicMinor));
      && 0 <= split.edli <= split.admin
      && -500 <= 1_000 * split.edli - 5 * Min(basic, WAGE_CEILING) <= 500
      && -500 <= 1_000 * split.admin - 5 * basic <= 500
      && (basic >= WAGE_CEILING ==> split.eps == EPS_CAP)
      && (basic < WAGE_CEILING ==> -5_000 <= 10_000 * split.eps - 833 * basic <= 5_000)
  {
  }

  lemma EpsBounds(basic: int)
    requires 0 <= basic
    ensures 0 <= Eps(basic) <= EPS_CAP
    ensures basic < WAGE_CEILING ==> 10_000 * Eps(basic) <= 833 * basic + 5_000
    ensures basic <= 6 ==> Eps(basic) == 0
    ensures basic <= 18 ==> Eps(basic) <= 1
  {
  }

  predicate StatutoryPf(cfg: CalcConfig) {
    cfg.deductPf && cfg.pfPct == 12 && cfg.pfCap == 180_000 && 0 <= cfg.basicPct
  }

  lemma StatutoryPfBounds(basic: int, cfg: CalcConfig)
    requires StatutoryPf(cfg) && 0 <= basic
    ensures var pf := ProvidentFund(basic, cfg);
      && 0 <= pf <= 180_000
      && (basic >= WAGE_CEILING ==> pf == 180_000)
      && (basic <= WAGE_CEILING ==> 12 * basic - 50 <= 100 * pf)
      && (basic >= 5 ==> pf >= 1)
  {
  }

  lemma BasicNonNegative(ctc: int, cfg: CalcConfig)
    requires 0 < ctc && 0 <= cfg.basicPct
    ensures 0 <= Basic(ctc, cfg)
  {
  }

  /** For a full month at 12% under the statutory cap, the two halves agree whatever the CTC. */
  lemma FullMonthHalvesAgree(ctc: int, cfg: CalcConfig, month: Option<int>)
    requires StatutoryPf(cfg)
    ensures var slip := ComputeBreakdown(ctc, cfg, month); HalvesAgree(slip.basic, slip.employeePf)
  {
  }

  /** The largest full-month Basic, 21,600.07 rupees, whose provident fund keeps covering the EPS however few
      days are paid: at 15,000 rupees of prorated Basic the capped fund still prorates to 1,250. */
  const HALVES_LIMIT := 21_600_07

  predicate HalvesAgreeOn(slip: Slip, payableDays: real, totalDays: int) {
    var paid := Prorate(slip, payableDays, totalDays);
    HalvesAgree(paid.basic, paid.employeePf)
  }

  /** The halves survive proration, whatever the share of the month, exactly up to that Basic. */
  lemma ProratedHalvesAgreeIff(ctc: int, cfg: CalcConfig, month: Option<int>)
    requires StatutoryPf(cfg)
    ensures var slip := ComputeBreakdown(ctc, cfg, month);
      (forall payableDays, totalDays :: HalvesAgreeOn(slip, payableDays, totalDays)) <==> slip.basic <= HALVES_LIMIT
  {
    var slip := ComputeBreakdown(ctc, cfg, month);
    if slip.basic <= HALVES_LIMIT {
      forall payableDays, totalDays
        ensures HalvesAgreeOn(slip, payableDays, totalDays)
      {
        ProratedHalvesAgree(ctc, cfg, month, payableDays, totalDays);
      }
    } else {
      StatutoryPfBounds(slip.basic, cfg);
      LargeBasicDisagrees(slip);
    }
  }

  lemma ProratedHalvesAgree(ctc: int, cfg: CalcConfig, month: Option<int>, payableDays: real, totalDays: int)
    requires StatutoryPf(cfg)
    requires ComputeBreakdown(ctc, cfg, month).basic <= HALVES_LIMIT
    ensures HalvesAgreeOn(ComputeBreakdown(ctc, cfg, month), payableDays, totalDays)
  {
    var slip, ratio := ComputeBreakdown(ctc, cfg, month), AttendanceRatio(payableDays, totalDays);
    var paid := Prorate(slip, payableDays, totalDays);
    if 0 < ctc && ratio != 0.0 {
      BasicNonNegative(ctc, cfg);
      StatutoryPfBounds(slip.basic, cfg);
      if slip.basic <= WAGE_CEILING {
        ScaledShareCoversEps(slip.basic, slip.employeePf, ratio);
      } else {
        ScaledCapCoversEps(slip.basic, ratio);
      }
    } else {
      ScaleNone(0);
      ScaleZero(ratio);
      EpsBounds(0);
    }
    HalvesAgreeIff(paid.basic, paid.employeePf);
  }

  // --- A capped fund --------------------------------------------------------------------------

  /** Between the ceiling and the limit the capped fund keeps the proportion of 180,000 to the Basic, and the
      two roundings together lose too little to matter. */
  lemma ScaledCapCoversEps(basic: int, ratio: real)
    requires WAGE_CEILING <= basic <= HALVES_LIMIT && 0.0 <= ratio <= 1.0
    ensures 0 <= Scale(basic, ratio)
    ensures Eps(Scale(basic, ratio)) <= Scale(180_000, ratio)
  {
    hide Part, RoundHalfEven, Eps;
    PartOfWhole(basic as real, ratio);
    InProportion(basic as real, 180_000.0, HALVES_LIMIT as real, ratio);
    RoundedInProportion(Part(basic as real, ratio), Part(180_000.0, ratio));
    EpsWithinCap(Scale(basic, ratio), Scale(180_000, ratio));
  }

  lemma InProportion(basic: real, pf: real, limit: real, ratio: real)
    requires 0.0 <= basic <= limit && 0.0 <= pf && 0.0 <= ratio
    ensures pf * Part(basic, ratio) <= limit * Part(pf, ratio)
  {
    var product := pf * ratio;
    assert 0.0 <= product;
    assert basic * product <= limit * product;
    assert pf * (basic * ratio) == basic * product;
  }

  lemma RoundedInProportion(b: real, p: real)
    requires 0.0 <= b && 180_000.0 * b <= HALVES_LIMIT as real * p
    ensures 0 <= RoundHalfEven(b)
    ensures 180_000 * RoundHalfEven(b) <= HALVES_LIMIT * RoundHalfEven(p) + 1_170_003
  {
  }

  lemma EpsWithinCap(basic: int, pf: int)
    requires 0 <= basic && 180_000 * basic <= HALVES_LIMIT * pf + 1_170_003
    ensures Eps(basic) <= pf
  {
    hide RoundHalfEven;
    if basic < WAGE_CEILING {
      EpsShareBelow(basic, pf);
      RoundsTo(basic * 833, pf);
    }
  }

  /** Up to 12,000 paise of fund the Basic is at most twelve times it and six; beyond that 8.33% has slack. */
  lemma EpsShareBelow(basic: int, pf: int)
    requires 0 <= basic && 180_000 * basic <= HALVES_LIMIT * pf + 1_170_003
    ensures 833 * basic < 10_000 * pf + 5_000
  {
    assert pf < 12_000 ==> basic <= 12 * pf + 6;
  }

  lemma RoundsTo(x: int, n: int)
    requires x < 10_000 * n + 5_000
    ensures RoundHalfEven(x as real / 10_000.0) <= n
  {
  }

  /** Above the limit, the share that prorates the Basic to 15,000 rupees exactly leaves less than 1,250 of fund. */
  lemma LargeBasicDisagrees(slip: Slip)
    requires slip.basic > HALVES_LIMIT && slip.employeePf == 180_000
    ensures exists payableDays, totalDays :: !HalvesAgreeOn(slip, payableDays, totalDays)
  {
    hide Part;
    var share := 1_499_999.5 / slip.basic as real;
    ShareOfLargeBasic(slip.basic, share);
    RoundHalfEvenUnique(Part(slip.basic as real, share), WAGE_CEILING);
    WholeMonthOfOneDay(slip, share);
    HalvesAgreeIff(Prorate(slip, share, 1).basic, Prorate(slip, share, 1).employeePf);
    assert !HalvesAgreeOn(slip, share, 1);
  }

  lemma ShareOfLargeBasic(basic: int, share: real)
    requires basic > HALVES_LIMIT && share == 1_499_999.5 / basic as real
    ensures 0.0 < share < 1.0
    ensures Part(basic as real, share) == 1_499_999.5 && Part(180_000.0, share) < 124_999.5
  {
    assert basic as real * share == 1_499_999.5;
    assert 2_160_008.0 * share <= 1_499_999.5;
  }

  lemma WholeMonthOfOneDay(slip: Slip, share: real)
    requires 0.0 < share < 1.0
    ensures AttendanceRatio(share, 1) == share
    ensures Prorate(slip, share, 1).basic == Scale(slip.basic, share)
    ensures Prorate(slip, share, 1).employeePf == Scale(slip.employeePf, share)
  {
    assert share / 1.0 == share;
  }

  // --- A fund below its cap -------------------------------------------------------------------

  lemma ScaleZero(ratio: real)
    ensures Scale(0, ratio) == 0
  {
  }

  /** 12% keeps ahead of 8.33% by more than the three roundings can lose. */
  lemma ScaledShareCoversEps(basic: int, pf: int, ratio: real)
    requires 0 <= basic <= WAGE_CEILING && 0.0 < ratio <= 1.0
    requires 12 * basic - 50 <= 100 * pf && (basic >= 5 ==> pf >= 1) && 0 <= pf
    ensures 0 <= Scale(basic, ratio)
    ensures Eps(Scale(basic, ratio)) <= Scale(pf, ratio)
  {
    hide Part;
    var b, p := Part(basic as real, ratio), Part(pf as real, ratio);
    PartOfWhole(basic as real, ratio);
    PartOfWhole(pf as real, ratio);
    PartOfSlack(basic as real, pf as real, ratio);
    PartOfUnits(basic as real, pf as real, ratio);
    ScaledShareCoversEpsReal(basic, b, p, ratio);
  }

  lemma PartOfSlack(basic: real, pf: real, ratio: real)
    requires 12.0 * basic - 50.0 <= 100.0 * pf && 0.0 <= ratio
    ensures 12.0 * Part(basic, ratio) - 50.0 * ratio <= 100.0 * Part(pf, ratio)
  {
    PartOfMore(12.0 * basic - 50.0, 100.0 * pf, ratio);
  }

  lemma PartOfUnits(basic: real, pf: real, ratio: real)
    requires 0.0 <= ratio
    ensures 1.0 <= pf ==> ratio <= Part(pf, ratio)
    ensures basic <= 6.0 ==> Part(basic, ratio) <= 6.0 * ratio
  {
  }

  lemma ScaledShareCoversEpsReal(basic: int, b: real, p: real, ratio: real)
    requires 0 <= basic <= WAGE_CEILING && 0.0 < ratio <= 1.0
    requires 0.0 <= b <= basic as real && 0.0 <= p && 12.0 * b - 50.0 * ratio <= 100.0 * p
    requires (basic >= 5 ==> p >= ratio) && (basic <= 6 ==> b <= 6.0 * ratio)
    ensures 0 <= RoundHalfEven(b)
    ensures Eps(RoundHalfEven(b)) <= RoundHalfEven(p)
  {
  }

  /** An ordinary count of days shows it too: on 3 days of 30, a Basic of 1,20,000 rupees still draws 999.60 of
      EPS against an employee share of 180. */
  lemma CappedHalvesCanDisagree()
    ensures var slip := ComputeBreakdown(4_00_000_00, DEFAULT_CONFIG, None);
      var paid := Prorate(slip, 3.0, 30);
      && paid.employeePf == 180_00 && Split(paid.basic, paid.employeePf).eps == 999_60
      && !HalvesAgree(paid.basic, paid.employeePf)
  {
    RoundHalfEvenUnique(1_20_000_00.0, 1_20_000_00);
    RoundHalfEvenUnique(14_400_00.0, 14_400_00);
    RoundHalfEvenUnique(12_000_00.0, 12_000_00);
    RoundHalfEvenUnique(180_00.0, 180_00);
    RoundHalfEvenUnique(999_60.0, 999_60);
  }
}
