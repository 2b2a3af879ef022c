/** The monthly salary slip derived from a CTC, and what a change of CTC or of the provident-fund
    switch does to the take-home. Amounts are whole paise. */
module SalarySlip {
  import opened Wrappers
  import opened Numbers
  import opened Rounding
  import opened IncomeTax

  datatype CalcConfig = CalcConfig(
    basicPct: int, hraPct: int, pfPct: int, pfCap: int,
    professionalTax: int, professionalTaxFeb: int,
    deductIncomeTax: bool, deductPf: bool)

  const DEFAULT_CONFIG := CalcConfig(30, 50, 12, 180_000, 20_000, 30_000, true, true)

  datatype Slip = Slip(
    ctc: int, basic: int, hra: int, special: int, employerPf: int, gross: int,
    employeePf: int, professionalTax: int, incomeTax: int, totalDeduction: int, net: int)

  const ZERO_SLIP := Slip(0, 0, 0, 0, 0, 0, 0, 0, 0, 0, 0)

  function Basic(ctc: int, cfg: CalcConfig): int { Percent(ctc, cfg.basicPct) }

  function ProvidentFund(basic: int, cfg: CalcConfig): int {
    if cfg.deductPf then Min(Percent(basic, cfg.pfPct), cfg.pfCap) else 0
  }

  /** The monthly share of the tax on twelve months of this gross. */
  function MonthlyTax(gross: int): int { RoundHalfEven(AnnualTax(gross * 12) as real / 12.0) }

  function ComputeBreakdown(monthlyCtc: int, cfg: CalcConfig, month: Option<int>): Slip {
    var ctc := Max(0, monthlyCtc);
    if ctc == 0 then ZERO_SLIP else
    var basic := Basic(ctc, cfg);
    var pf := ProvidentFund(basic, cfg);
    var gross := ctc - pf;
    var hra := Percent(basic, cfg.hraPct);
    var special := gross - basic - hra;
    var profTax := if month == Some(2) then cfg.professionalTaxFeb else cfg.professionalTax;
    var incomeTax := if cfg.deductIncomeTax then MonthlyTax(gross) else 0;
    var totalDeduction := pf + profTax + incomeTax;
    Slip(ctc, basic, hra, special, pf, gross, pf, profTax, incomeTax, totalDeduction, gross - totalDeduction)
  }

  /** Every line of a slip is accounted for: the earnings make up the gross, the gross and the
      employer's share make up the CTC, and what is not deducted is paid. */
  lemma SlipReconciles(monthlyCtc: int, cfg: CalcConfig, month: Option<int>)
    ensures var slip := ComputeBreakdown(monthlyCtc, cfg, month);
      && slip.ctc == Max(0, monthlyCtc) == slip.gross + slip.employerPf
      && slip.gross == slip.basic + slip.hra + slip.special == slip.net + slip.totalDeduction
      && slip.totalDeduction == slip.employeePf + slip.professionalTax + slip.incomeTax
      && slip.employeePf == slip.employerPf
  {
  }

  /** Without a CTC every line is zero; otherwise every line that is a percentage is the nearest paisa to it:
      Basic of the CTC, HRA and provident fund of the Basic (the fund up to its cap), the tax of a twelfth
      of the year's. */
  lemma SlipFollowsRates(monthlyCtc: int, cfg: CalcConfig, month: Option<int>)
    ensures monthlyCtc <= 0 ==> ComputeBreakdown(monthlyCtc, cfg, month) == ZERO_SLIP
    ensures 0 < monthlyCtc ==> var slip := ComputeBreakdown(monthlyCtc, cfg, month);
      && -50 <= 100 * slip.basic - monthlyCtc * cfg.basicPct <= 50
      && -50 <= 100 * slip.hra - slip.basic * cfg.hraPct <= 50
      && (if !cfg.deductPf then slip.employeePf == 0
          else slip.employeePf <= cfg.pfCap && 100 * slip.employeePf <= slip.basic * cfg.pfPct + 50)
      && (cfg.deductPf && slip.employeePf < cfg.pfCap ==> slip.basic * cfg.pfPct - 50 <= 100 * slip.employeePf)
      && slip.professionalTax == (if month == Some(2) then cfg.professionalTaxFeb else cfg.professionalTax)
      && (if cfg.deductIncomeTax then -6 <= 12 * slip.incomeTax - AnnualTax(slip.gross * 12) <= 6
          else slip.incomeTax == 0)
  {
    hide Percent, AnnualTax;
    PercentBounds(monthlyCtc, cfg.basicPct);
    PercentBounds(Basic(monthlyCtc, cfg), cfg.hraPct);
    PercentBounds(Basic(monthlyCtc, cfg), cfg.pfPct);
  }

  /** The default structure, for any CTC: Basic is 30% of it, HRA half the Basic, the fund 12% of the Basic up to
      1,800 rupees, and the professional tax 200 rupees, or 300 in February. */
  lemma DefaultSlipFollowsRates(ctc: int, month: Option<int>)
    requires 0 < ctc
    ensures var slip := ComputeBreakdown(ctc, DEFAULT_CONFIG, month);
      && -50 <= 100 * slip.basic - 30 * ctc <= 50
      && -50 <= 100 * slip.hra - 50 * slip.basic <= 50
      && slip.employeePf <= 1_800_00 && 100 * slip.employeePf <= 12 * slip.basic + 50
      && (slip.employeePf < 1_800_00 ==> 12 * slip.basic - 50 <= 100 * slip.employeePf)
      && slip.professionalTax == (if month == Some(2) then 300_00 else 200_00)
      && -6 <= 12 * slip.incomeTax - AnnualTax(12 * slip.gross) <= 6
  {
    hide Percent, AnnualTax;
    SlipFollowsRates(ctc, DEFAULT_CONFIG, month);
    var slip := ComputeBreakdown(ctc, DEFAULT_CONFIG, month);
    assert slip.gross * 12 == 12 * slip.gross;
  }

  // --- The monthly tax as a function of the gross --------------------------------------

  /** The top of the income covered by the first `n` slabs. */
  function Covered(taxable: int, n: nat): int
    requires 0 < n <= |SLABS|
  {
    match SLABS[n - 1].upper case Some(upper) => Min(taxable, upper) case None => taxable
  }

  /** No slab charges more than 30%, and each rounding adds at most one paisa. */
  lemma {:induction false} BandsTaxGrowth(taxable: int, more: int, n: nat)
    requires 0 <= taxable <= more && 0 < n <= |SLABS|
    ensures 100 * (BandsTax(more, n) - BandsTax(taxable, n))
         <= 30 * (Covered(more, n) - Covered(taxable, n)) + 100 * n
  {
    BandTaxGrowth(taxable, more, n - 1);
    if n > 1 {
      BandsTaxGrowth(taxable, more, n - 1);
      CoveredNext(taxable, n);
      CoveredNext(more, n);
    }
  }

  lemma CoveredNext(taxable: int, n: nat)
    requires 0 <= taxable && 1 < n <= |SLABS|
    ensures Covered(taxable, n) == Covered(taxable, n - 1) + Share(SLABS[n - 1], taxable)
  {
  }

  lemma BandTaxGrowth(taxable: int, more: int, i: nat)
    requires 0 <= taxable <= more && i < |SLABS|
    ensures 100 * (BandTax(SLABS[i], more) - BandTax(SLABS[i], taxable))
         <= 30 * (Share(SLABS[i], more) - Share(SLABS[i], taxable)) + 100
  {
    var low, high, rate := Share(SLABS[i], taxable), Share(SLABS[i], more), SLABS[i].rate;
    assert low <= high && 0 <= rate <= 30;
    assert (high - low) * rate <= (high - low) * 30;
    PercentBounds(low, rate);
    PercentBounds(high, rate);
  }

  lemma SlabTaxOverTwelve(taxable: int, more: int)
    requires 0 <= taxable <= more <= taxable + 12
    ensures SlabTax(more) - SlabTax(taxable) <= 10
  {
    BandsTaxGrowth(taxable, more, |SLABS|);
  }

  const RELIEF_ORIGIN := REBATE_LIMIT + STANDARD_DEDUCTION

  /** Nothing, the slabs' charge, or the excess over the relief line: never more than the slabs. */
  lemma AnnualTaxForms(gross: int)
    ensures AnnualTax(gross) <= SlabTax(Taxable(gross))
    ensures AnnualTax(gross) == 0 || AnnualTax(gross) == SlabTax(Taxable(gross))
         || AnnualTax(gross) == gross - RELIEF_ORIGIN
  {
    BandsTaxNonNegative(Taxable(gross), |SLABS|);
  }

  /** The year's tax rises by the whole of a twelve-paise rise only along the marginal-relief
      line, where it is a multiple of twelve. */
  lemma AnnualTaxOverTwelve(gross: int)
    ensures 0 <= AnnualTax(gross * 12 + 12) - AnnualTax(gross * 12) <= 12
    ensures AnnualTax(gross * 12 + 12) - AnnualTax(gross * 12) == 12 ==>
      AnnualTax(gross * 12) == 0 || AnnualTax(gross * 12) == 12 * (gross - RELIEF_ORIGIN / 12)
  {
    hide BandsTax, AnnualTax;
    var low, high := gross * 12, gross * 12 + 12;
    TaxNeverOutgrowsGross(low, high);
    TaxableOverTwelve(low);
    SlabTaxOverTwelve(Taxable(low), Taxable(high));
    AnnualTaxForms(low);
    AnnualTaxForms(high);
  }

  lemma TaxableOverTwelve(gross: int)
    ensures 0 <= Taxable(gross) <= Taxable(gross + 12) <= Taxable(gross) + 12
  {
  }

  lemma MonthlyTaxStep(gross: int)
    ensures MonthlyTax(gross) <= MonthlyTax(gross + 1) <= MonthlyTax(gross) + 1
  {
    var low, high := AnnualTax(gross * 12), AnnualTax(gross * 12 + 12);
    AnnualTaxOverTwelve(gross);
    TwelfthStep(low, high, if low == 0 then 0 else gross - RELIEF_ORIGIN / 12);
    assert (gross + 1) * 12 == gross * 12 + 12;
  }

  lemma TwelfthStep(low: int, high: int, n: int)
    requires 0 <= high - low <= 12
    requires high - low == 12 ==> low == 12 * n
    ensures RoundHalfEven(low as real / 12.0) <= RoundHalfEven(high as real / 12.0)
         <= RoundHalfEven(low as real / 12.0) + 1
  {
  }

  /** The tax withheld in a month never falls as the gross rises and never takes more than the rise. */
  lemma {:induction false} MonthlyTaxNeverOutgrowsGross(low: int, high: int)
    requires low <= high
    ensures 0 <= MonthlyTax(high) - MonthlyTax(low) <= high - low
    decreases high - low
  {
    hide MonthlyTax;
    if low < high {
      MonthlyTaxNeverOutgrowsGross(low, high - 1);
      MonthlyTaxStep(high - 1);
    }
  }

  // --- The provident fund under the default configuration --------------------------------

  function DefaultPf(ctc: int): int { ProvidentFund(Basic(ctc, DEFAULT_CONFIG), DEFAULT_CONFIG) }

  lemma PercentMonotone(x: int, y: int, p: int)
    requires x <= y && 0 <= p
    ensures Percent(x, p) <= Percent(y, p)
  {
    hide RoundHalfEven;
    assert x * p <= y * p;
    var u, v := (x * p) as real / 100.0, (y * p) as real / 100.0;
    assert u <= v;
    RoundHalfEvenMonotone(u, v);
  }

  /** 12% of 30% with two roundings, until the cap binds for good. */
  lemma DefaultPfBounds(ctc: int)
    requires 0 < ctc
    ensures 0 <= DefaultPf(ctc) <= 180_000
    ensures DefaultPf(ctc) < 180_000 ==> -5_600 <= 10_000 * DefaultPf(ctc) - 360 * ctc <= 5_600
    ensures DefaultPf(ctc) == 180_000 ==> 10_000 * DefaultPf(ctc) <= 360 * ctc + 5_600
    ensures 5_001_000 <= ctc ==> DefaultPf(ctc) == 180_000
  {
  }

  lemma DefaultPfMonotone(low: int, high: int)
    requires low <= high
    ensures DefaultPf(low) <= DefaultPf(high)
  {
    PercentMonotone(low, high, 30);
    PercentMonotone(Basic(low, DEFAULT_CONFIG), Basic(high, DEFAULT_CONFIG), 12);
  }

  lemma DefaultPfGrowth(low: int, high: int)
    requires 0 < low < high
    ensures 0 <= DefaultPf(high) - DefaultPf(low)
    ensures 2 * (DefaultPf(high) - DefaultPf(low)) <= high - low + (if high == low + 1 then 1 else 0)
  {
    DefaultPfMonotone(low, high);
    DefaultPfBounds(low);
    DefaultPfBounds(high);
  }

  // --- Take-home as the CTC rises ---------------------------------------------------------

  function DefaultNet(ctc: int, month: Option<int>): int { ComputeBreakdown(ctc, DEFAULT_CONFIG, month).net }

  lemma DefaultNetForm(ctc: int, month: Option<int>)
    requires 0 < ctc
    ensures DefaultNet(ctc, month)
      == ctc - 2 * DefaultPf(ctc) - MonthlyTax(ctc - DefaultPf(ctc)) - (if month == Some(2) then 30_000 else 20_000)
  {
  }

  lemma NoTaxBelowReliefLine(gross: int)
    requires gross <= 10_625_000
    ensures MonthlyTax(gross) == 0
  {
  }

  /** While no tax is due, a raise costs at most the one paisa that two provident-fund roundings can add. */
  lemma NetRisesUntaxed(low: int, high: int, month: Option<int>)
    requires 0 < low < high <= 10_625_000
    ensures DefaultNet(high, month) >= DefaultNet(low, month) - (if high == low + 1 then 1 else 0)
  {
    hide DefaultNet, DefaultPf, MonthlyTax;
    DefaultNetForm(low, month);
    DefaultNetForm(high, month);
    DefaultPfBounds(low);
    DefaultPfBounds(high);
    NoTaxBelowReliefLine(low - DefaultPf(low));
    NoTaxBelowReliefLine(high - DefaultPf(high));
    DefaultPfGrowth(low, high);
  }

  /** Once the provident fund sits at its cap, only the tax moves, and it never outgrows the gross. */
  lemma NetRisesCapped(low: int, high: int, month: Option<int>)
    requires 5_001_000 <= low < high
    ensures DefaultNet(high, month) >= DefaultNet(low, month)
  {
    hide DefaultNet, DefaultPf, MonthlyTax;
    DefaultNetForm(low, month);
    DefaultNetForm(high, month);
    DefaultPfBounds(low);
    DefaultPfBounds(high);
    MonthlyTaxNeverOutgrowsGross(low - 180_000, high - 180_000);
  }

  /** Under the default configuration, in the same month, a higher CTC never lowers the take-home:
      the one exception is a raise of a single paisa, which can cost a single paisa. */
  lemma NetFallsByAtMostOnePaisa(low: int, high: int, month: Option<int>)
    requires 0 < low < high
    ensures DefaultNet(high, month) >= DefaultNet(low, month) - 1
    ensures high >= low + 2 ==> DefaultNet(high, month) >= DefaultNet(low, month)
  {
    if high <= 10_625_000 {
      NetRisesUntaxed(low, high, month);
    } else if low >= 5_001_000 {
      NetRisesCapped(low, high, month);
    } else {
      NetRisesUntaxed(low, 6_000_000, month);
      NetRisesCapped(6_000_000, high, month);
    }
  }

  /** That paisa is lost exactly when the provident fund grows with it: the raise then goes to one share
      and the other share is paid for. So the take-home falls, on a raise of any size, exactly when the raise
      is of one paisa and the provident fund grows. */
  lemma NetFallsIff(low: int, high: int, month: Option<int>)
    requires 0 < low < high
    ensures DefaultNet(high, month) < DefaultNet(low, month) <==> high == low + 1 && DefaultPf(high) > DefaultPf(low)
    ensures DefaultNet(high, month) < DefaultNet(low, month) ==> DefaultNet(high, month) == DefaultNet(low, month) - 1
  {
    hide DefaultNet, DefaultPf, MonthlyTax;
    NetFallsByAtMostOnePaisa(low, high, month);
    DefaultNetForm(low, month);
    DefaultNetForm(high, month);
    DefaultPfGrowth(low, high);
    if high == low + 1 {
      MonthlyTaxNeverOutgrowsGross(low - DefaultPf(low), high - DefaultPf(high));
    }
  }

  /** And it does happen: 15 paise of CTC pay one paisa more than 16 do. */
  lemma SinglePaisaRaiseCanCostOne()
    ensures DefaultPf(16) > DefaultPf(15)
    ensures DefaultNet(16, None) == DefaultNet(15, None) - 1
  {
    RoundHalfEvenUnique(4.5, 4);
    RoundHalfEvenUnique(4.8, 5);
    RoundHalfEvenUnique(0.48, 0);
    RoundHalfEvenUnique(0.6, 1);
    NetFallsIff(15, 16, None);
  }

  /** Switching the provident fund off returns both shares of it, less at most one share of extra tax. */
  lemma SwitchingPfOffRaisesNet(ctc: int, cfg: CalcConfig, month: Option<int>)
    requires cfg.deductPf && 0 <= ProvidentFund(Basic(ctc, cfg), cfg)
    ensures var on := ComputeBreakdown(ctc, cfg, month);
            var off := ComputeBreakdown(ctc, cfg.(deductPf := false), month);
            on.employeePf <= off.net - on.net <= 2 * on.employeePf
  {
    hide MonthlyTax, Percent;
    MonthlyTaxNeverOutgrowsGross(ctc - ProvidentFund(Basic(ctc, cfg), cfg), ctc);
  }
}
