/** Accruing a streaming fee: new supply is minted to the manager and every position unit is scaled down. */
module StreamingFee {
  import opened Wrappers
  import opened Products
  import opened FixedPoint
  import opened Rounding

  const ONE_YEAR_IN_SECONDS: int := 31557600

  /** The fraction of supply accrued between two timestamps at a yearly rate. */
  function StreamingFee(rate: int, previous: int, recent: int): (r: int)
  {
    TruncDiv((recent - previous) * rate, ONE_YEAR_IN_SECONDS)
  }

  /** A fee of exactly the whole makes the division throw. */
  function InflationAmount(percent: int, supply: int): (r: Option<int>)
  {
    if percent == PRECISE_UNIT then None else Some(TruncDiv(percent * supply, PRECISE_UNIT - percent))
  }

  function PostFeeUnit(unit: int, percent: int): (r: int)
  {
    if unit >= 0 then PreciseMul(unit, PRECISE_UNIT - percent) else PreciseMulCeilInt(unit, PRECISE_UNIT - percent)
  }

  /** A unit scaled by the fraction kept: an asset rounded down and a debt up, each by less than one unit. */
  predicate ScaledInFavour(unit: int, percent: int, scaled: int)
  {
    var kept := PRECISE_UNIT - percent;
    && (unit >= 0 ==> 0 <= scaled && scaled * PRECISE_UNIT <= unit * kept < scaled * PRECISE_UNIT + PRECISE_UNIT)
    && (unit < 0 ==> scaled < 0 && -unit * kept <= -scaled * PRECISE_UNIT < -unit * kept + PRECISE_UNIT)
  }

  /** Every unit is rescaled, in order; a percentage below the whole rounds each in the set's favour. */
  method PostFeePositionUnits(units: seq<int>, percent: int) returns (newUnits: seq<int>)
    ensures |newUnits| == |units|
    ensures forall i :: 0 <= i < |units| ==> newUnits[i] == PostFeeUnit(units[i], percent)
    ensures 0 <= percent < PRECISE_UNIT ==>
              forall i :: 0 <= i < |units| ==> ScaledInFavour(units[i], percent, newUnits[i])
  {
    newUnits := [];
    for i := 0 to |units|
      invariant |newUnits| == i
      invariant forall j :: 0 <= j < i ==> newUnits[j] == PostFeeUnit(units[j], percent)
    {
      if units[i] >= 0 {
        newUnits := newUnits + [PreciseMul(units[i], PRECISE_UNIT - percent)];
      } else {
        newUnits := newUnits + [PreciseMulCeilInt(units[i], PRECISE_UNIT - percent)];
      }
    }
    if 0 <= percent < PRECISE_UNIT {
      forall i | 0 <= i < |units| ensures ScaledInFavour(units[i], percent, newUnits[i]) {
        PostFeeUnitBounds(units[i], percent);
      }
    }
  }

  /** The fee is the yearly rate for the time elapsed, a year being 31557600 seconds, rounded down. */
  lemma FeeIsProRata(rate: int, previous: int, recent: int)
    ensures var fee := StreamingFee(rate, previous, recent);
            && IsTruncated(fee, (recent - previous) * rate, 31557600)
            && (0 <= rate && previous <= recent ==>
                  0 <= fee && fee * 31557600 <= (recent - previous) * rate < (fee + 1) * 31557600)
  {
    TruncTruncates((recent - previous) * rate, ONE_YEAR_IN_SECONDS);
    if 0 <= rate && previous <= recent {
      NonNegative(recent - previous, rate);
      TruncIsFloor((recent - previous) * rate, ONE_YEAR_IN_SECONDS);
    }
  }

  /** For any percentage: minting throws at the whole exactly, and each unit is scaled with its own rounding. */
  lemma AnyPercentage(percent: int, supply: int, unit: int)
    ensures InflationAmount(percent, supply).None? <==> percent == PRECISE_UNIT
    ensures percent != PRECISE_UNIT ==>
              IsTruncated(InflationAmount(percent, supply).value, percent * supply, PRECISE_UNIT - percent)
    ensures unit >= 0 ==> IsTruncated(PostFeeUnit(unit, percent), unit * (PRECISE_UNIT - percent), PRECISE_UNIT)
    ensures unit < 0 ==> IsAwayFromZero(PostFeeUnit(unit, percent), unit * (PRECISE_UNIT - percent), PRECISE_UNIT)
  {
    if percent != PRECISE_UNIT { TruncTruncates(percent * supply, PRECISE_UNIT - percent); }
    MulTruncates(unit, PRECISE_UNIT - percent);
    MulCeilIntRoundsAway(unit, PRECISE_UNIT - percent);
  }

  /** Splitting an accrual period in two can only lose, and loses at most one unit. */
  lemma SplitPeriodLosesAtMostOne(rate: int, t0: int, t1: int, t2: int)
    requires 0 <= rate && t0 <= t1 <= t2
    ensures var split := StreamingFee(rate, t0, t1) + StreamingFee(rate, t1, t2);
            split <= StreamingFee(rate, t0, t2) <= split + 1
  {
    NonNegative(t1 - t0, rate);
    NonNegative(t2 - t1, rate);
    assert (t2 - t0) * rate == (t1 - t0) * rate + (t2 - t1) * rate;
    TruncIsFloor((t1 - t0) * rate, ONE_YEAR_IN_SECONDS);
    TruncIsFloor((t2 - t1) * rate, ONE_YEAR_IN_SECONDS);
    TruncIsFloor((t2 - t0) * rate, ONE_YEAR_IN_SECONDS);
  }

  /** The minted amount makes the manager's share of the new supply the fee percentage, rounded down. */
  lemma MintedShare(percent: int, supply: int)
    requires 0 <= percent < PRECISE_UNIT && 0 <= supply
    ensures InflationAmount(percent, supply).Some?
    ensures var minted := InflationAmount(percent, supply).value;
            && 0 <= minted
            && minted * PRECISE_UNIT <= percent * (supply + minted) < (minted + 1) * PRECISE_UNIT
            && (supply + minted) * (PRECISE_UNIT - percent) <= supply * PRECISE_UNIT
            && supply * PRECISE_UNIT < (supply + minted + 1) * (PRECISE_UNIT - percent)
  {
    NonNegative(percent, supply);
    var kept := PRECISE_UNIT - percent;
    TruncIsFloor(percent * supply, kept);
    ShareAlgebra(PRECISE_UNIT, percent, supply, TruncDiv(percent * supply, kept));
  }

  lemma ShareAlgebra(u: int, percent: int, supply: int, minted: int)
    requires minted * (u - percent) <= percent * supply < minted * (u - percent) + (u - percent)
    requires 0 <= percent
    ensures minted * u <= percent * (supply + minted) < (minted + 1) * u
    ensures (supply + minted) * (u - percent) <= supply * u < (supply + minted + 1) * (u - percent)
  {
    Distribute(u, percent, minted);
    Distribute(supply, minted, percent);
    Distribute(minted, 1, u);
    Distribute(u, percent, supply);
    Distribute(supply, minted, u - percent);
    Distribute(supply + minted, 1, u - percent);
  }

  lemma PostFeeUnitBounds(unit: int, percent: int)
    requires 0 <= percent < PRECISE_UNIT
    ensures ScaledInFavour(unit, percent, PostFeeUnit(unit, percent))
  {
    var kept := PRECISE_UNIT - percent;
    if unit >= 0 {
      MulFloor(unit, kept);
    } else {
      MulCeilIntRoundsAway(unit, kept);
      MonoStrict(unit, 0, kept);
      assert -unit * kept == -(unit * kept);
    }
  }

  /** One accrual: an asset's claim on the whole supply never grows, a debt's never shrinks by a whole token. */
  lemma AccrualSolvency(unit: int, supply: int, percent: int)
    requires 0 <= percent < PRECISE_UNIT && 0 <= supply
    ensures var u := PostFeeUnit(unit, percent);
            var supply' := supply + InflationAmount(percent, supply).value;
            && (unit >= 0 ==> u * supply' <= unit * supply)
            && (unit < 0 ==> -u * (supply' + 1) > -unit * supply)
  {
    MintedShare(percent, supply);
    PostFeeUnitBounds(unit, percent);
    var u, kept := PostFeeUnit(unit, percent), PRECISE_UNIT - percent;
    var supply' := supply + InflationAmount(percent, supply).value;
    if unit >= 0 {
      AssetAlgebra(unit, u, supply, supply', kept);
    } else {
      DebtAlgebra(-unit, -u, supply, supply' + 1, kept);
    }
  }

  lemma AssetAlgebra(unit: int, u: int, supply: int, supply': int, kept: int)
    requires 0 <= unit && 0 <= supply' && 0 < kept
    requires u * PRECISE_UNIT <= unit * kept && supply' * kept <= supply * PRECISE_UNIT
    ensures u * supply' <= unit * supply
  {
    Mono(u * PRECISE_UNIT, unit * kept, supply');
    Mono(supply' * kept, supply * PRECISE_UNIT, unit);
    assert u * PRECISE_UNIT * supply' == u * supply' * PRECISE_UNIT;
    assert unit * kept * supply' == supply' * kept * unit;
    assert supply * PRECISE_UNIT * unit == unit * supply * PRECISE_UNIT;
  }

  lemma DebtAlgebra(debt: int, d: int, supply: int, supply1: int, kept: int)
    requires 0 < debt && 0 <= supply1 && 0 < kept
    requires debt * kept <= d * PRECISE_UNIT && supply * PRECISE_UNIT < supply1 * kept
    ensures d * supply1 > debt * supply
  {
    Mono(debt * kept, d * PRECISE_UNIT, supply1);
    MonoStrict(supply * PRECISE_UNIT, supply1 * kept, debt);
    assert d * PRECISE_UNIT * supply1 == d * supply1 * PRECISE_UNIT;
    assert debt * kept * supply1 == supply1 * kept * debt;
    assert supply * PRECISE_UNIT * debt == debt * supply * PRECISE_UNIT;
  }

  // ----- whole runs

  predicate ValidRun(percents: seq<int>)
  {
    forall i :: 0 <= i < |percents| ==> 0 <= percents[i] < PRECISE_UNIT
  }

  function RunUnit(unit: int, percents: seq<int>): (r: int)
  {
    if percents == [] then unit
    else PostFeeUnit(RunUnit(unit, percents[..|percents| - 1]), percents[|percents| - 1])
  }

  function RunSupply(supply: int, percents: seq<int>): (r: int)
    requires ValidRun(percents)
  {
    if percents == [] then supply
    else
      var before := RunSupply(supply, percents[..|percents| - 1]);
      before + InflationAmount(percents[|percents| - 1], before).value
  }

  /** The product of what each accrual leaves. */
  function Kept(percents: seq<int>): (r: int)
  {
    if percents == [] then 1
    else Kept(percents[..|percents| - 1]) * (PRECISE_UNIT - percents[|percents| - 1])
  }

  lemma {:induction false} RunSupplyGrows(supply: int, percents: seq<int>)
    requires 0 <= supply && ValidRun(percents)
    ensures supply <= RunSupply(supply, percents)
  {
    if percents != [] {
      var n := |percents| - 1;
      RunSupplyGrows(supply, percents[..n]);
      MintedShare(percents[n], RunSupply(supply, percents[..n]));
    }
  }

  lemma {:induction false} RunUnitSign(unit: int, percents: seq<int>)
    requires ValidRun(percents)
    ensures unit >= 0 ==> RunUnit(unit, percents) >= 0
    ensures unit < 0 ==> RunUnit(unit, percents) < 0
  {
    if percents != [] {
      var n := |percents| - 1;
      RunUnitSign(unit, percents[..n]);
      PostFeeUnitBounds(RunUnit(unit, percents[..n]), percents[n]);
    }
  }

  /** Solvency over any run of accruals: unit_k * supply_k <= unit_0 * supply_0. */
  lemma {:induction false} RunSolvency(unit: int, supply: int, percents: seq<int>)
    requires 0 <= unit && 0 <= supply && ValidRun(percents)
    ensures RunUnit(unit, percents) * RunSupply(supply, percents) <= unit * supply
  {
    if percents != [] {
      var n := |percents| - 1;
      RunSolvency(unit, supply, percents[..n]);
      RunUnitSign(unit, percents[..n]);
      RunSupplyGrows(supply, percents[..n]);
      AccrualSolvency(RunUnit(unit, percents[..n]), RunSupply(supply, percents[..n]), percents[n]);
    }
  }

  /** A debt never grows in size by accruing. */
  lemma {:induction false} RunDebtShrinks(unit: int, percents: seq<int>)
    requires unit < 0 && ValidRun(percents)
    ensures 0 < -RunUnit(unit, percents) <= -unit
  {
    if percents != [] {
      var n := |percents| - 1;
      RunDebtShrinks(unit, percents[..n]);
      DebtStepShrinks(RunUnit(unit, percents[..n]), percents[n]);
    }
  }

  lemma DebtStepShrinks(unit: int, percent: int)
    requires unit < 0 && 0 <= percent < PRECISE_UNIT
    ensures 0 < -PostFeeUnit(unit, percent) <= -unit
  {
    PostFeeUnitBounds(unit, percent);
    var d, u := -PostFeeUnit(unit, percent), PRECISE_UNIT;
    Mono(u - percent, u, -unit);
    Distribute(-unit, 1, u);
    CancelStrict(d, -unit + 1, u);
  }

  /**
   Solvency of debts over any run: k accruals leave |unit_k| * supply_k at least |unit_0| * (supply_0 - k), so the
   debt's claim on the whole supply falls by at most k tokens' worth.
   */
  lemma {:induction false} RunDebtSolvency(unit: int, supply: int, percents: seq<int>)
    requires unit < 0 && 0 <= supply && ValidRun(percents)
    ensures -RunUnit(unit, percents) * RunSupply(supply, percents) >= -unit * (supply - |percents|)
  {
    if percents != [] {
      var n := |percents| - 1;
      RunDebtSolvency(unit, supply, percents[..n]);
      RunDebtShrinks(unit, percents);
      RunUnitSign(unit, percents[..n]);
      RunSupplyGrows(supply, percents[..n]);
      AccrualSolvency(RunUnit(unit, percents[..n]), RunSupply(supply, percents[..n]), percents[n]);
      OneTokenLess(-unit, -RunUnit(unit, percents), supply - n, RunSupply(supply, percents),
                   -RunUnit(unit, percents[..n]) * RunSupply(supply, percents[..n]));
    }
  }

  lemma OneTokenLess(debt0: int, debt: int, tokens: int, supply: int, claim: int)
    requires debt <= debt0 && claim >= debt0 * tokens && debt * (supply + 1) > claim
    ensures debt * supply >= debt0 * (tokens - 1)
  {
    Distribute(supply, 1, debt);
    Distribute(tokens, 1, debt0);
  }

  /**
   Accuracy over any run: k accruals together cost an asset at most k units below the exact product of the
   fractions kept, and never leave it above.
   */
  lemma {:induction false} RunAssetAccuracy(unit: int, percents: seq<int>)
    requires 0 <= unit && ValidRun(percents)
    ensures var u, k := RunUnit(unit, percents), |percents|;
            u * Pow(PRECISE_UNIT, k) <= unit * Kept(percents) <= (u + k) * Pow(PRECISE_UNIT, k)
  {
    if percents != [] {
      var n := |percents| - 1;
      var before, kept := percents[..n], PRECISE_UNIT - percents[n];
      RunAssetAccuracy(unit, before);
      RunUnitSign(unit, before);
      PostFeeUnitBounds(RunUnit(unit, before), percents[n]);
      RoundedStep(RunUnit(unit, before), RunUnit(unit, percents), unit * Kept(before),
                  Pow(PRECISE_UNIT, n), kept, PRECISE_UNIT, n);
      Associate(unit, Kept(before), kept);
    }
  }

  /** A debt, mirrored: over any run it is never understated, and overstated by at most k units. */
  lemma {:induction false} RunDebtAccuracy(unit: int, percents: seq<int>)
    requires unit < 0 && ValidRun(percents)
    ensures var d, k := -RunUnit(unit, percents), |percents|;
            (d - k) * Pow(PRECISE_UNIT, k) <= -unit * Kept(percents) <= d * Pow(PRECISE_UNIT, k)
  {
    if percents != [] {
      var n := |percents| - 1;
      var before, kept := percents[..n], PRECISE_UNIT - percents[n];
      RunDebtAccuracy(unit, before);
      RunUnitSign(unit, before);
      PostFeeUnitBounds(RunUnit(unit, before), percents[n]);
      RoundedUpStep(-RunUnit(unit, before), -RunUnit(unit, percents), -unit * Kept(before),
                    Pow(PRECISE_UNIT, n), kept, PRECISE_UNIT, n);
      Associate(-unit, Kept(before), kept);
    }
  }

  lemma RoundedStep(u0: int, u1: int, exact: int, scale: int, kept: int, u: int, n: nat)
    requires 0 < scale && 0 <= kept <= u
    requires u0 * scale <= exact <= (u0 + n) * scale
    requires u1 * u <= u0 * kept < u1 * u + u
    ensures u1 * (scale * u) <= exact * kept <= (u1 + n + 1) * (scale * u)
  {
    var mid := u0 * kept * scale;
    assert mid <= exact * kept <= mid + n * scale * kept by {
      Mono(u0 * scale, exact, kept);
      Mono(exact, (u0 + n) * scale, kept);
      Distribute(u0, n, scale);
      Distribute(u0 * scale, n * scale, kept);
      Swap(u0, scale, kept);
    }
    WithinOneUnit(u0 * kept, u1, scale, u);
    assert n * scale * kept <= n * (scale * u) by {
      NonNegative(n, scale);
      Mono(kept, u, n * scale);
      Associate(n, scale, u);
    }
    Distribute(u1 + 1, n, scale * u);
  }

  lemma RoundedUpStep(d0: int, d1: int, exact: int, scale: int, kept: int, u: int, n: nat)
    requires 0 < scale && 0 <= kept <= u
    requires (d0 - n) * scale <= exact <= d0 * scale
    requires d0 * kept <= d1 * u < d0 * kept + u
    ensures (d1 - n - 1) * (scale * u) <= exact * kept <= d1 * (scale * u)
  {
    var mid := d0 * kept * scale;
    assert mid - n * scale * kept <= exact * kept <= mid by {
      Mono(exact, d0 * scale, kept);
      Mono((d0 - n) * scale, exact, kept);
      Distribute(d0, n, scale);
      Distribute(d0 * scale, n * scale, kept);
      Swap(d0, scale, kept);
    }
    Distribute(d1, 1, u);
    WithinOneUnit(d0 * kept, d1 - 1, scale, u);
    assert n * scale * kept <= n * (scale * u) by {
      NonNegative(n, scale);
      Mono(kept, u, n * scale);
      Associate(n, scale, u);
    }
    Distribute(d1 - 1, n, scale * u);
  }

  lemma WithinOneUnit(x: int, q: int, scale: int, u: int)
    requires 0 < scale && q * u <= x <= q * u + u
    ensures q * (scale * u) <= x * scale <= (q + 1) * (scale * u)
  {
    Mono(q * u, x, scale);
    Mono(x, q * u + u, scale);
    Distribute(q, 1, u);
    Distribute(q, 1, scale * u);
    Associate(q, u, scale);
  }
}
