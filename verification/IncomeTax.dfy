/** Annual income tax under the new regime: slabs, the Section 87A rebate and its marginal relief. */
module IncomeTax {
  import opened Wrappers
  import opened Numbers
  import opened Rounding

  const RUPEE := 100
  const STANDARD_DEDUCTION := 75_000 * RUPEE
  const REBATE_LIMIT := 12_00_000 * RUPEE

  datatype Slab = Slab(lower: int, upper: Option<int>, rate: int)

  const SLABS: seq<Slab> := [
    Slab(0, Some(4_00_000 * RUPEE), 0),
    Slab(4_00_000 * RUPEE, Some(8_00_000 * RUPEE), 5),
    Slab(8_00_000 * RUPEE, Some(12_00_000 * RUPEE), 10),
    Slab(12_00_000 * RUPEE, Some(16_00_000 * RUPEE), 15),
    Slab(16_00_000 * RUPEE, Some(20_00_000 * RUPEE), 20),
    Slab(20_00_000 * RUPEE, Some(24_00_000 * RUPEE), 25),
    Slab(24_00_000 * RUPEE, None, 30)
  ]

  function Taxable(gross: int): int { Max(0, gross - STANDARD_DEDUCTION) }

  /** The income that falls inside a slab: nothing below it, and no more than its width above it. */
  function Share(slab: Slab, taxable: int): (share: int)
    ensures 0 <= share
  {
    var top := match slab.upper case Some(upper) => Min(taxable, upper) case None => taxable;
    Max(0, top - slab.lower)
  }

  /** What one slab charges, rounded on its own. */
  function BandTax(slab: Slab, taxable: int): int { Percent(Share(slab, taxable), slab.rate) }

  /** The charge of the first `n` slabs, each of them consulted. */
  function BandsTax(taxable: int, n: nat): int
    requires n <= |SLABS|
  {
    if n == 0 then 0 else BandsTax(taxable, n - 1) + BandTax(SLABS[n - 1], taxable)
  }

  function SlabTax(taxable: int): int { BandsTax(taxable, |SLABS|) }

  /** The tax as the rules state it, over every slab and with no early exit. */
  function AnnualTax(gross: int): int {
    var taxable := Taxable(gross);
    if taxable <= REBATE_LIMIT then 0 else Min(SlabTax(taxable), taxable - REBATE_LIMIT)
  }

  /** A slab that starts at or above the income charges nothing, and so do all the later ones. */
  lemma {:induction false} BandsAboveIncomeChargeNothing(taxable: int, n: nat)
    requires n <= |SLABS|
    requires n < |SLABS| ==> taxable <= SLABS[n].lower
    ensures SlabTax(taxable) == BandsTax(taxable, n)
    decreases |SLABS| - n
  {
    if n < |SLABS| {
      assert Share(SLABS[n], taxable) == 0;
      BandsAboveIncomeChargeNothing(taxable, n + 1);
    }
  }

  /** The loop of the payroll code: it stops at the first slab the income does not reach. */
  method ComputeAnnualIncomeTax(gross: int) returns (result: int)
    ensures result == AnnualTax(gross)
  {
    var taxable := Max(0, gross - STANDARD_DEDUCTION);
    if taxable <= REBATE_LIMIT {
      return 0;
    }
    var tax := 0;
    var i := 0;
    while i < |SLABS|
      invariant 0 <= i <= |SLABS|
      invariant tax == BandsTax(taxable, i)
    {
      var slab := SLABS[i];
      if taxable <= slab.lower {
        break;
      }
      var bandTop := if slab.upper.Some? then Min(taxable, slab.upper.value) else taxable;
      assert Share(slab, taxable) == bandTop - slab.lower;
      tax := tax + Percent(bandTop - slab.lower, slab.rate);
      i := i + 1;
    }
    BandsAboveIncomeChargeNothing(taxable, i);
    result := Min(tax, taxable - REBATE_LIMIT);
  }

  // --- How the tax moves with the gross -------------------------------------------------

  /** One more paisa of income reaches at most one slab and adds at most one paisa of tax. */
  lemma {:induction false} BandsTaxStep(taxable: int, n: nat)
    requires 0 <= taxable && n <= |SLABS|
    ensures BandsTax(taxable, n) <= BandsTax(taxable + 1, n) <= BandsTax(taxable, n) + 1
    ensures (forall i :: 0 <= i < n ==> !Reaches(i, taxable)) ==> BandsTax(taxable + 1, n) == BandsTax(taxable, n)
  {
    if n > 0 {
      BandsTaxStep(taxable, n - 1);
      BandTaxStep(n - 1, taxable);
      if Reaches(n - 1, taxable) {
        SlabsDoNotOverlap(n - 1, taxable);
      }
    }
  }

  lemma SlabsDoNotOverlap(i: nat, taxable: int)
    requires i < |SLABS| && Reaches(i, taxable)
    ensures forall j :: 0 <= j < i ==> !Reaches(j, taxable)
  {
  }

  predicate Reaches(i: nat, taxable: int)
    requires i < |SLABS|
  {
    SLABS[i].lower <= taxable && (SLABS[i].upper.Some? ==> taxable < SLABS[i].upper.value)
  }

  lemma BandTaxStep(i: nat, taxable: int)
    requires i < |SLABS| && 0 <= taxable
    ensures BandTax(SLABS[i], taxable) <= BandTax(SLABS[i], taxable + 1) <= BandTax(SLABS[i], taxable) + 1
    ensures !Reaches(i, taxable) ==> BandTax(SLABS[i], taxable + 1) == BandTax(SLABS[i], taxable)
  {
    var share, more := Share(SLABS[i], taxable), Share(SLABS[i], taxable + 1);
    assert more == if Reaches(i, taxable) then share + 1 else share;
    PercentStep(share, SLABS[i].rate);
  }

  lemma PercentStep(x: int, p: int)
    requires 0 <= p <= 99
    ensures Percent(x, p) <= Percent(x + 1, p) <= Percent(x, p) + 1
  {
  }

  lemma BandsTaxNonNegative(taxable: int, n: nat)
    requires n <= |SLABS|
    ensures 0 <= BandsTax(taxable, n)
  {
  }

  /** One more paisa of gross costs zero or one paisa of tax, on both sides of the rebate line. */
  lemma AnnualTaxStep(gross: int)
    ensures AnnualTax(gross) <= AnnualTax(gross + 1) <= AnnualTax(gross) + 1
  {
    hide BandsTax;
    BandsTaxStep(Taxable(gross), |SLABS|);
    BandsTaxNonNegative(Taxable(gross + 1), |SLABS|);
  }

  /** The tax never falls as the gross rises and never takes more than the whole rise, so what is
      left after tax never falls either: no raise costs money, the rebate line included. */
  lemma {:induction false} TaxNeverOutgrowsGross(low: int, high: int)
    requires low <= high
    ensures 0 <= AnnualTax(high) - AnnualTax(low) <= high - low
    ensures low - AnnualTax(low) <= high - AnnualTax(high)
    decreases high - low
  {
    if low < high {
      TaxNeverOutgrowsGross(low, high - 1);
      AnnualTaxStep(high - 1);
    }
  }

  /** What the slabs below each lower bound charge when filled: 5% of 4 lakh, 10% of the next 4, and so on. */
  const FILLED: seq<int> := [0, 0, 20_000 * RUPEE, 60_000 * RUPEE, 1_20_000 * RUPEE, 2_00_000 * RUPEE, 3_00_000 * RUPEE]

  lemma {:induction false} FilledSlabsCharge(taxable: int, n: nat)
    requires n < |SLABS| && SLABS[n].lower <= taxable
    ensures BandsTax(taxable, n) == FILLED[n]
  {
    hide BandTax;
    if n > 0 {
      FilledSlabsCharge(taxable, n - 1);
      FilledSlabCharges(taxable, n - 1);
    }
  }

  lemma FilledSlabCharges(taxable: int, i: nat)
    requires i < |SLABS| - 1 && SLABS[i + 1].lower <= taxable
    ensures BandTax(SLABS[i], taxable) == FILLED[i + 1] - FILLED[i]
  {
    hide Percent;
    var slab, charge := SLABS[i], FILLED[i + 1] - FILLED[i];
    assert Share(slab, taxable) * slab.rate == 100 * charge;
    ExactPercent(Share(slab, taxable), slab.rate, charge);
  }

  lemma ExactPercent(x: int, p: int, charge: int)
    requires x * p == 100 * charge
    ensures Percent(x, p) == charge
  {
    PercentBounds(x, p);
  }

  /** Within a slab the charge is the filled slabs' plus this slab's rate on the rest, to the paisa. */
  lemma SlabTaxWithinSlab(taxable: int, n: nat)
    requires n < |SLABS| && SLABS[n].lower <= taxable
    requires SLABS[n].upper.Some? ==> taxable <= SLABS[n].upper.value
    ensures -50 <= 100 * (SlabTax(taxable) - FILLED[n]) - (taxable - SLABS[n].lower) * SLABS[n].rate <= 50
  {
    hide Percent;
    FilledSlabsCharge(taxable, n);
    BandsAboveIncomeChargeNothing(taxable, n + 1);
    PercentBounds(taxable - SLABS[n].lower, SLABS[n].rate);
  }

  /** So, by gross salary: nothing up to 12,75,000 rupees, from one paisa above it the excess, and at the
      top of each later slab 1,20,000, then 2,00,000, then 3,00,000 rupees, and as much again on the next ten lakh. */
  lemma TaxAtSlabEdges()
    ensures AnnualTax(12_75_000_00) == 0 && AnnualTax(12_75_000_01) == 1
    ensures AnnualTax(16_75_000_00) == 1_20_000_00
    ensures AnnualTax(20_75_000_00) == 2_00_000_00
    ensures AnnualTax(24_75_000_00) == 3_00_000_00
    ensures AnnualTax(34_75_000_00) == 6_00_000_00
  {
    hide SlabTax;
    SlabTaxWithinSlab(12_00_000 * RUPEE + 1, 3);
    SlabTaxWithinSlab(16_00_000 * RUPEE, 4);
    SlabTaxWithinSlab(20_00_000 * RUPEE, 5);
    SlabTaxWithinSlab(24_00_000 * RUPEE, 6);
    SlabTaxWithinSlab(34_00_000 * RUPEE, 6);
  }
}
