/**
 Issuing and redeeming set tokens at net asset value against one reserve asset. What the source
 reads from the valuer and the token (valuation, supply) are parameters here. A computation that
 divides by zero throws in the source and is `None` here.
 */
module NavIssuance {
  import opened Wrappers
  import opened Products
  import opened FixedPoint
  import opened Rounding

  /** Fee and premium settings of one issue or one redemption. */
  datatype Fees = Fees(manager: int, protocol: int, premium: int) {
    /** Each a percentage, the two fees taking at most the whole amount between them. */
    predicate Valid() {
      0 <= manager && 0 <= protocol && manager + protocol <= PRECISE_UNIT && 0 <= premium <= PRECISE_UNIT
    }
  }

  function PostFeeQuantity(quantity: int, fees: Fees): (r: int)
  {
    quantity - PreciseMul(quantity, fees.manager) - PreciseMul(quantity, fees.protocol)
  }

  /** A quantity of reserve asset, in 18 decimals, net of fees. */
  function NormalizedNetDeposit(deposit: int, baseUnits: int, fees: Fees): (r: int)
    requires baseUnits != 0
  {
    PreciseDiv(PostFeeQuantity(deposit, fees), baseUnits)
  }

  /** The part of the net deposit that buys tokens, in 18 decimals, the premium taken off. */
  function NormalizedAfterPremium(deposit: int, baseUnits: int, fees: Fees): (r: int)
    requires baseUnits != 0
  {
    var net := PostFeeQuantity(deposit, fees);
    PreciseDiv(net - PreciseMul(net, fees.premium), baseUnits)
  }

  function IssueQuantity(supply: int, valuation: int, baseUnits: int, deposit: int, fees: Fees): (r: Option<int>)
  {
    if baseUnits == 0 then None
    else
      var normalized := NormalizedNetDeposit(deposit, baseUnits, fees);
      var normalizedAfterPremium := NormalizedAfterPremium(deposit, baseUnits, fees);
      var denominator := PreciseMul(supply, valuation) + normalized - normalizedAfterPremium;
      if denominator == 0 then None
      else Some(PreciseDiv(PreciseMul(normalizedAfterPremium, supply), denominator))
  }

  function ReserveRedeemQuantity(quantity: int, valuation: int, baseUnits: int, fees: Fees): (r: int)
  {
    var notional := PreciseMul(valuation, quantity);
    var premium := PreciseMulCeil(notional, fees.premium);
    PreciseMul(PostFeeQuantity(notional - premium, fees), baseUnits)
  }

  function IssuePositionMultiplier(multiplier: int, supply0: int, supply1: int): (r: int)
  {
    PreciseMul(multiplier, PRECISE_UNIT - PreciseDivCeil(supply1 - supply0, supply1))
  }

  function RedeemPositionMultiplier(multiplier: int, supply0: int, supply1: int): (r: Option<int>)
  {
    if supply1 == 0 then None
    else Some(PreciseMul(multiplier, PRECISE_UNIT + PreciseDiv(supply0 - supply1, supply1)))
  }

  /** Real units to virtual units and back, as the token stores them. */
  function VirtualRoundTrip(unit: int, multiplier: int): (r: int)
    requires multiplier != 0
  {
    PreciseDiv(PreciseMul(unit, multiplier), multiplier)
  }

  function IssuePositionUnit(unit: int, deposit: int, supply0: int, supply1: int, multiplier: int, fees: Fees)
    : (r: Option<int>)
  {
    if supply1 == 0 || multiplier == 0 then None
    else
      var numerator := PreciseMul(supply0, unit) + PostFeeQuantity(deposit, fees);
      Some(VirtualRoundTrip(PreciseDiv(numerator, supply1), multiplier))
  }

  /** Reserve asset leaving the position on a redemption: the fees stay out of this one. */
  function ReserveOutflow(quantity: int, valuation: int, baseUnits: int, fees: Fees): (r: int)
  {
    var notional := PreciseMul(valuation, quantity);
    PreciseMul(notional - PreciseMulCeil(notional, fees.premium), baseUnits)
  }

  function RedeemPositionUnit(
    unit: int, quantity: int, valuation: int, baseUnits: int, supply0: int, supply1: int, multiplier: int, fees: Fees)
    : (r: Option<int>)
  {
    if supply1 == 0 || multiplier == 0 then None
    else
      var numerator := PreciseMul(supply0, unit) - ReserveOutflow(quantity, valuation, baseUnits, fees);
      Some(VirtualRoundTrip(PreciseDiv(numerator, supply1), multiplier))
  }

  // ----- fees and premium

  /** Fees never take more than there is, and never add to it. */
  lemma PostFeeWithin(quantity: int, fees: Fees)
    requires 0 <= quantity && fees.Valid()
    ensures 0 <= PostFeeQuantity(quantity, fees) <= quantity
  {
    MulFloor(quantity, fees.manager);
    MulFloor(quantity, fees.protocol);
    FeesFit(PRECISE_UNIT, quantity, fees.manager, fees.protocol,
            PreciseMul(quantity, fees.manager), PreciseMul(quantity, fees.protocol));
  }

  /** The two fees are rounded down apart from each other. */
  lemma FeesRoundApart(quantity: int, fees: Fees)
    requires 0 <= quantity && fees.Valid()
    ensures PostFeeQuantity(quantity, fees)
            == quantity - quantity * fees.manager / PRECISE_UNIT - quantity * fees.protocol / PRECISE_UNIT
  {
    MulIsQuotient(quantity, fees.manager);
    MulIsQuotient(quantity, fees.protocol);
  }

  /** Rounding the premium up is rounding what it leaves down. */
  lemma PremiumLeaves(notional: int, premium: int)
    requires 0 <= notional && 0 <= premium <= PRECISE_UNIT
    ensures notional - PreciseMulCeil(notional, premium) == notional * (PRECISE_UNIT - premium) / PRECISE_UNIT
  {
    AfterPremiumNearExact(notional, premium);
    FloorUnique(notional - PreciseMulCeil(notional, premium), notional * (PRECISE_UNIT - premium), PRECISE_UNIT);
  }

  /** A redemption rounded step by step: worth, premium, then the fees on one side only, then base units. */
  lemma RedemptionExactly(quantity: int, valuation: int, baseUnits: int, fees: Fees)
    requires 0 <= quantity && 0 <= valuation && 0 < baseUnits && fees.Valid()
    ensures var u := PRECISE_UNIT;
            var gross := valuation * quantity / u * (u - fees.premium) / u;
            var net := gross - gross * fees.manager / u - gross * fees.protocol / u;
            && ReserveOutflow(quantity, valuation, baseUnits, fees) == gross * baseUnits / u
            && ReserveRedeemQuantity(quantity, valuation, baseUnits, fees) == net * baseUnits / u
  {
    var notional := PreciseMul(valuation, quantity);
    MulFloor(valuation, quantity);
    MulIsQuotient(valuation, quantity);
    NotionalAfterPremium(notional, fees.premium);
    PremiumLeaves(notional, fees.premium);
    var gross := notional - PreciseMulCeil(notional, fees.premium);
    FeesRoundApart(gross, fees);
    PostFeeWithin(gross, fees);
    MulIsQuotient(gross, baseUnits);
    MulIsQuotient(PostFeeQuantity(gross, fees), baseUnits);
  }

  lemma FeesFit(u: int, quantity: int, m: int, p: int, mFee: int, pFee: int)
    requires 0 < u && 0 <= quantity && m + p <= u
    requires mFee * u <= quantity * m && pFee * u <= quantity * p
    ensures mFee + pFee <= quantity
  {
    Mono(m + p, u, quantity);
    Distribute(m, p, quantity);
    Distribute(mFee, pFee, u);
    Cancel(mFee + pFee, quantity, u);
  }

  lemma NotionalAfterPremium(notional: int, premium: int)
    requires 0 <= notional && 0 <= premium <= PRECISE_UNIT
    ensures 0 <= notional - PreciseMulCeil(notional, premium) <= notional
  {
    MulCeil(notional, premium);
    Mono(premium, PRECISE_UNIT, notional);
    Distribute(notional, 1, PRECISE_UNIT);
    CancelStrict(PreciseMulCeil(notional, premium), notional + 1, PRECISE_UNIT);
  }

  // ----- issue then redeem

  /** The deposit before and after the premium, both in 18 decimals. */
  lemma NetDepositOrder(net: int, premium: int, baseUnits: int)
    requires 0 <= net && 0 <= premium <= PRECISE_UNIT && 0 < baseUnits
    ensures 0 <= PreciseDiv(net - PreciseMul(net, premium), baseUnits) <= PreciseDiv(net, baseUnits)
  {
    MulShrinks(net, premium);
    DivMonotone(net - PreciseMul(net, premium), net, baseUnits);
  }

  /** The two roundings of the share formula only ever lower it, together by less than one unit and a bit. */
  lemma ShareRoundsDown(net2: int, supply: int, denominator: int)
    requires 0 <= net2 && 0 <= supply && 0 < denominator
    ensures var q := PreciseDiv(PreciseMul(net2, supply), denominator);
            0 <= q && q * denominator <= net2 * supply < q * denominator + denominator + PRECISE_UNIT
  {
    MulFloor(net2, supply);
    DivFloor(PreciseMul(net2, supply), denominator);
  }

  /** Both normalised deposits against their exact values net / B and net * (1 - premium) / B, from both sides. */
  lemma NormalizedNearExact(net: int, premium: int, baseUnits: int)
    requires 0 <= net && 0 <= premium <= PRECISE_UNIT && 0 < baseUnits
    ensures var net1, net2 := PreciseDiv(net, baseUnits), PreciseDiv(net - PreciseMul(net, premium), baseUnits);
            && net1 * baseUnits <= net * PRECISE_UNIT < net1 * baseUnits + baseUnits
            && net2 * baseUnits < net * (PRECISE_UNIT - premium) + PRECISE_UNIT
            && net * (PRECISE_UNIT - premium) < (net2 + 1) * baseUnits
  {
    MulShrinks(net, premium);
    MulFloor(net, premium);
    DivFloor(net, baseUnits);
    DivFloor(net - PreciseMul(net, premium), baseUnits);
    Distribute(net, PreciseMul(net, premium), PRECISE_UNIT);
    Distribute(PRECISE_UNIT, premium, net);
    Distribute(PreciseDiv(net - PreciseMul(net, premium), baseUnits), 1, baseUnits);
  }

  /**
   The quantity issued is the exact share S * N2 / (T + N1 - N2), short of it by less than one unit plus what
   U weighs against the denominator; the call throws only when that denominator is zero. N1 and N2 are the net
   deposit before and after the premium, each bracketed in base units.
   */
  lemma IssueQuantityNearExact(supply: int, valuation: int, baseUnits: int, deposit: int, fees: Fees)
    requires 0 <= supply && 0 <= valuation && 0 < baseUnits && 0 <= deposit && fees.Valid()
    ensures var net1 := NormalizedNetDeposit(deposit, baseUnits, fees);
            var net2 := NormalizedAfterPremium(deposit, baseUnits, fees);
            var denominator := PreciseMul(supply, valuation) + net1 - net2;
            var issued := IssueQuantity(supply, valuation, baseUnits, deposit, fees);
            var net := PostFeeQuantity(deposit, fees);
            && net1 * baseUnits <= net * PRECISE_UNIT < net1 * baseUnits + baseUnits
            && net2 * baseUnits < net * (PRECISE_UNIT - fees.premium) + PRECISE_UNIT
            && net * (PRECISE_UNIT - fees.premium) < (net2 + 1) * baseUnits
            && 0 <= net2 <= net1 && 0 <= denominator && (issued.Some? <==> denominator > 0)
            && (issued.Some? ==>
                  && 0 <= issued.value
                  && issued.value * denominator <= net2 * supply
                     < issued.value * denominator + denominator + PRECISE_UNIT)
  {
    PostFeeWithin(deposit, fees);
    NetDepositOrder(PostFeeQuantity(deposit, fees), fees.premium, baseUnits);
    NormalizedNearExact(PostFeeQuantity(deposit, fees), fees.premium, baseUnits);
    MulFloor(supply, valuation);
    var net2 := NormalizedAfterPremium(deposit, baseUnits, fees);
    var denominator := PreciseMul(supply, valuation) + NormalizedNetDeposit(deposit, baseUnits, fees) - net2;
    if denominator > 0 { ShareRoundsDown(net2, supply, denominator); }
  }

  /** The quantity issued reaches y exactly when the net deposit's share of the supply reaches what y takes. */
  lemma IssueQuantityExactly(supply: int, valuation: int, baseUnits: int, deposit: int, fees: Fees, y: nat)
    requires 0 <= supply && 0 <= valuation && 0 < baseUnits && 0 <= deposit && fees.Valid()
    ensures var net1 := NormalizedNetDeposit(deposit, baseUnits, fees);
            var net2 := NormalizedAfterPremium(deposit, baseUnits, fees);
            var denominator := PreciseMul(supply, valuation) + net1 - net2;
            var issued := IssueQuantity(supply, valuation, baseUnits, deposit, fees);
            issued.Some? ==>
              && 0 < denominator
              && (y <= issued.value <==> NeededToDivide(y, denominator) * PRECISE_UNIT <= net2 * supply)
  {
    IssueQuantityNearExact(supply, valuation, baseUnits, deposit, fees);
    var net2 := NormalizedAfterPremium(deposit, baseUnits, fees);
    var denominator := PreciseMul(supply, valuation) + NormalizedNetDeposit(deposit, baseUnits, fees) - net2;
    if denominator > 0 { ScaleThenDivideReaches(net2, supply, denominator, y); }
  }

  /** The algebra of no dilution. */
  lemma ShareDoesNotDilute(supply: int, q: int, value: int, net1: int, net2: int)
    requires 0 <= supply && 0 <= q && 0 <= net2 <= net1
    requires q * (value + net1 - net2) <= net2 * supply
    ensures (supply + q) * value <= supply * (value + net1)
  {
    NonNegative(q, net1 - net2);
    Mono(net2, net1, supply);
    assert q * (value + net1 - net2) == q * value + q * (net1 - net2);
    assert (supply + q) * value == supply * value + q * value;
    assert supply * (value + net1) == supply * value + net1 * supply;
  }

  /**
   No dilution: after the rounded issue, the value backing one token is at least what it was:
   (S + Q) * T <= S * (T + N1).
   */
  lemma IssuanceNeverDilutes(supply: int, valuation: int, baseUnits: int, deposit: int, fees: Fees)
    requires 0 <= supply && 0 <= valuation && 0 < baseUnits && 0 <= deposit && fees.Valid()
    ensures var issued := IssueQuantity(supply, valuation, baseUnits, deposit, fees);
            var value := PreciseMul(supply, valuation);
            issued.Some? ==>
              && 0 <= issued.value
              && (supply + issued.value) * value <= supply * (value + NormalizedNetDeposit(deposit, baseUnits, fees))
  {
    IssueQuantityNearExact(supply, valuation, baseUnits, deposit, fees);
    var issued := IssueQuantity(supply, valuation, baseUnits, deposit, fees);
    if issued.Some? {
      ShareDoesNotDilute(
        supply, issued.value, PreciseMul(supply, valuation),
        NormalizedNetDeposit(deposit, baseUnits, fees), NormalizedAfterPremium(deposit, baseUnits, fees));
    }
  }

  /** A holding worth at most `cap` in 18 decimals redeems for at most `cap` turned back into base units. */
  lemma RedeemAtMost(quantity: int, valuation: int, baseUnits: int, fees: Fees, cap: int)
    requires 0 <= quantity && 0 <= valuation && 0 < baseUnits && fees.Valid()
    requires valuation * quantity <= cap * PRECISE_UNIT
    ensures 0 <= ReserveRedeemQuantity(quantity, valuation, baseUnits, fees)
    ensures ReserveRedeemQuantity(quantity, valuation, baseUnits, fees) * PRECISE_UNIT <= cap * baseUnits
  {
    var notional := PreciseMul(valuation, quantity);
    MulFloor(valuation, quantity);
    NotionalAfterPremium(notional, fees.premium);
    var afterPremium := notional - PreciseMulCeil(notional, fees.premium);
    PostFeeWithin(afterPremium, fees);
    var net := PostFeeQuantity(afterPremium, fees);
    MulFloor(net, baseUnits);
    Cancel(notional, cap, PRECISE_UNIT);
    Mono(net, cap, baseUnits);
  }

  /**
   Issue, then redeem everything just issued, at any valuation the new backing can support
   (V' * (S + Q) <= (T + N1) * U): the reserve paid out is at most the deposit net of the issue fees,
   hence at most the deposit. Issue and redeem may charge different fees.
   */
  lemma RoundTripGivesNoProfit(
    supply: int, valuation: int, baseUnits: int, deposit: int, issueFees: Fees, valuation': int, redeemFees: Fees)
    requires 0 <= supply && 0 <= valuation && 0 < baseUnits && 0 <= deposit && issueFees.Valid()
    requires 0 <= valuation' && redeemFees.Valid()
    ensures var issued := IssueQuantity(supply, valuation, baseUnits, deposit, issueFees);
            issued.Some? && Supported(supply, valuation, baseUnits, deposit, issueFees, issued.value, valuation') ==>
              0 <= ReserveRedeemQuantity(issued.value, valuation', baseUnits, redeemFees)
                <= PostFeeQuantity(deposit, issueFees) <= deposit
  {
    var issued := IssueQuantity(supply, valuation, baseUnits, deposit, issueFees);
    if issued.Some? && Supported(supply, valuation, baseUnits, deposit, issueFees, issued.value, valuation') {
      PostFeeWithin(deposit, issueFees);
      IssuedAreWorthNetDeposit(supply, valuation, baseUnits, deposit, issueFees, issued.value, valuation');
      RedeemAtMostReserve(issued.value, valuation', baseUnits, redeemFees, PostFeeQuantity(deposit, issueFees));
    }
  }

  /** A valuation per token that the value held after the issue can back: V' * (S + Q) <= (T + N1) * U. */
  predicate Supported(
    supply: int, valuation: int, baseUnits: int, deposit: int, fees: Fees, issued: int, valuation': int)
    requires baseUnits != 0
  {
    valuation' * (supply + issued)
    <= (PreciseMul(supply, valuation) + NormalizedNetDeposit(deposit, baseUnits, fees)) * PRECISE_UNIT
  }

  /** The tokens just issued are worth at most the net deposit, at any valuation the new backing supports. */
  lemma IssuedAreWorthNetDeposit(
    supply: int, valuation: int, baseUnits: int, deposit: int, fees: Fees, q: int, valuation': int)
    requires 0 <= supply && 0 <= valuation && 0 < baseUnits && 0 <= deposit && fees.Valid() && 0 <= valuation'
    requires IssueQuantity(supply, valuation, baseUnits, deposit, fees) == Some(q)
    requires Supported(supply, valuation, baseUnits, deposit, fees, q, valuation')
    ensures 0 <= q && valuation' * q <= NormalizedNetDeposit(deposit, baseUnits, fees) * PRECISE_UNIT
  {
    IssuanceNeverDilutes(supply, valuation, baseUnits, deposit, fees);
    IssueQuantityNearExact(supply, valuation, baseUnits, deposit, fees);
    MulFloor(supply, valuation);
    SharesAreWorthTheirDeposit(supply, q, PreciseMul(supply, valuation),
                               NormalizedNetDeposit(deposit, baseUnits, fees), valuation', PRECISE_UNIT);
  }

  /** A holding worth at most a normalised reserve redeems for at most that reserve. */
  lemma RedeemAtMostReserve(quantity: int, valuation: int, baseUnits: int, fees: Fees, reserve: int)
    requires 0 <= quantity && 0 <= valuation && 0 < baseUnits && fees.Valid() && 0 <= reserve
    requires valuation * quantity <= PreciseDiv(reserve, baseUnits) * PRECISE_UNIT
    ensures 0 <= ReserveRedeemQuantity(quantity, valuation, baseUnits, fees) <= reserve
  {
    DivFloor(reserve, baseUnits);
    RedeemAtMost(quantity, valuation, baseUnits, fees, PreciseDiv(reserve, baseUnits));
    Cancel(ReserveRedeemQuantity(quantity, valuation, baseUnits, fees), reserve, PRECISE_UNIT);
  }

  /** The algebra of the round trip: under no dilution, Q tokens are worth at most N1. */
  lemma SharesAreWorthTheirDeposit(supply: int, q: int, value: int, net1: int, valuation': int, u: int)
    requires 0 <= supply && 0 <= q && 0 <= value && 0 <= net1 && 0 <= valuation' && 0 < u
    requires (supply + q) * value <= supply * (value + net1)
    requires valuation' * (supply + q) <= (value + net1) * u
    ensures valuation' * q <= net1 * u
  {
    if q == 0 {
      NonNegative(net1, u);
    } else {
      assert (value + net1) * q <= net1 * (supply + q) by {
        Distribute(supply, q, value);
        Distribute(supply, q, net1);
        Distribute(value, net1, q);
        Distribute(value, net1, supply);
      }
      assert valuation' * q * (supply + q) <= net1 * u * (supply + q) by {
        Mono(valuation' * (supply + q), (value + net1) * u, q);
        Swap(valuation', supply + q, q);
        Swap(value + net1, u, q);
        Mono((value + net1) * q, net1 * (supply + q), u);
        Swap(net1, supply + q, u);
      }
      Cancel(valuation' * q, net1 * u, supply + q);
    }
  }

  /** What leaves is worth at most the tokens redeemed: outflow * U * U <= V * Q * B. */
  lemma OutflowAtMostWorth(quantity: int, valuation: int, baseUnits: int, fees: Fees)
    requires 0 <= quantity && 0 <= valuation && 0 < baseUnits && 0 <= fees.premium <= PRECISE_UNIT
    ensures var outflow := ReserveOutflow(quantity, valuation, baseUnits, fees);
            0 <= outflow && outflow * PRECISE_UNIT * PRECISE_UNIT <= valuation * quantity * baseUnits
  {
    var notional, u := PreciseMul(valuation, quantity), PRECISE_UNIT;
    MulFloor(valuation, quantity);
    NotionalAfterPremium(notional, fees.premium);
    var gross := notional - PreciseMulCeil(notional, fees.premium);
    MulFloor(gross, baseUnits);
    Mono(gross, notional, baseUnits);
    Mono(PreciseMul(gross, baseUnits) * u, notional * baseUnits, u);
    Swap(notional, baseUnits, u);
    Mono(notional * u, valuation * quantity, baseUnits);
  }

  /**
   No dilution by a redemption, the twin of the issue's: if the value held backs V for every token before it, the
   value left backs V for every token that stays.
   */
  lemma RedemptionNeverDilutes(
    held: int, supply: int, quantity: int, valuation: int, baseUnits: int, fees: Fees)
    requires 0 <= quantity && 0 <= valuation && 0 < baseUnits && fees.Valid()
    requires valuation * supply * baseUnits <= held * PRECISE_UNIT * PRECISE_UNIT
    ensures var left := held - ReserveOutflow(quantity, valuation, baseUnits, fees);
            valuation * (supply - quantity) * baseUnits <= left * PRECISE_UNIT * PRECISE_UNIT
  {
    OutflowAtMostWorth(quantity, valuation, baseUnits, fees);
    var outflow := ReserveOutflow(quantity, valuation, baseUnits, fees);
    Distribute(held, outflow, PRECISE_UNIT);
    Distribute(held * PRECISE_UNIT, outflow * PRECISE_UNIT, PRECISE_UNIT);
    assert valuation * (supply - quantity) == valuation * supply - valuation * quantity;
    Distribute(valuation * supply, valuation * quantity, baseUnits);
  }

  // ----- how close a redemption is to its exact value

  /** The two fees together leave the kept fraction, rounded up by less than two units. */
  lemma PostFeeNearExact(quantity: int, fees: Fees)
    requires 0 <= quantity && fees.Valid()
    ensures var kept := PRECISE_UNIT - fees.manager - fees.protocol;
            quantity * kept <= PostFeeQuantity(quantity, fees) * PRECISE_UNIT < quantity * kept + 2 * PRECISE_UNIT
  {
    MulFloor(quantity, fees.manager);
    MulFloor(quantity, fees.protocol);
    FeesKeep(PRECISE_UNIT, quantity, fees.manager, fees.protocol,
             PreciseMul(quantity, fees.manager), PreciseMul(quantity, fees.protocol));
  }

  lemma FeesKeep(u: int, quantity: int, m: int, p: int, mFee: int, pFee: int)
    requires mFee * u <= quantity * m < mFee * u + u && pFee * u <= quantity * p < pFee * u + u
    ensures quantity * (u - m - p) <= (quantity - mFee - pFee) * u < quantity * (u - m - p) + 2 * u
  {
    Distribute(u, m, quantity);
    Distribute(u - m, p, quantity);
    Distribute(quantity, mFee, u);
    Distribute(quantity - mFee, pFee, u);
  }

  lemma AfterPremiumNearExact(notional: int, premium: int)
    requires 0 <= notional && 0 <= premium <= PRECISE_UNIT
    ensures var gross := notional - PreciseMulCeil(notional, premium);
            gross * PRECISE_UNIT <= notional * (PRECISE_UNIT - premium) < gross * PRECISE_UNIT + PRECISE_UNIT
  {
    MulCeil(notional, premium);
    Distribute(PRECISE_UNIT, premium, notional);
  }

  /** Worth, then premium: two floors in a row. */
  lemma TwoFloors(u: int, worth: int, notional: int, gross: int, keep: int)
    requires 0 < u && 0 <= keep <= u
    requires notional * u <= worth < notional * u + u
    requires gross * u <= notional * keep < gross * u + u
    ensures gross * u * u <= worth * keep < gross * u * u + 2 * u * u
  {
    var scaled := notional * keep * u;
    assert scaled <= worth * keep <= scaled + u * u by {
      Swap(notional, keep, u);
      Mono(notional * u, worth, keep);
      Mono(worth, notional * u + u, keep);
      Distribute(notional * u, u, keep);
      Mono(keep, u, u);
    }
    FloorScaled(u, gross * u, notional * keep);
    Associate(2, u, u);
  }

  lemma FloorScaled(u: int, low: int, x: int)
    requires 0 < u && low <= x < low + u
    ensures low * u <= x * u < low * u + u * u
  {
    Mono(low, x, u);
    MonoStrict(x, low + u, u);
    Distribute(low, u, u);
  }

  /** Fees, which round in the holder's favour, on top of the two floors. */
  lemma FloorsThenFees(u: int, u2: int, u3: int, exact: int, gross: int, net: int, kept: int)
    requires 0 <= kept <= u && 0 <= u2 && u3 == u * u2
    requires gross * u2 <= exact <= gross * u2 + 2 * u2
    requires gross * kept <= net * u <= gross * kept + 2 * u
    ensures net * u3 - 2 * u3 <= exact * kept <= net * u3 + 2 * u3
  {
    Associate(net, u, u2);
    assert net * u3 - 2 * u3 <= gross * kept * u2 <= net * u3 by {
      Mono(gross * kept, net * u, u2);
      Mono(net * u - 2 * u, gross * kept, u2);
      Distribute(net * u, 2 * u, u2);
      Associate(2, u, u2);
    }
    assert gross * kept * u2 <= exact * kept <= gross * kept * u2 + 2 * u2 * kept by {
      Mono(gross * u2, exact, kept);
      Mono(exact, gross * u2 + 2 * u2, kept);
      Distribute(gross * u2, 2 * u2, kept);
      Swap(gross, u2, kept);
    }
    assert 2 * u2 * kept <= 2 * u3 by { Mono(kept, u, u2); Associate(2, u2, kept); }
  }

  lemma IntoBaseUnits(u: int, u3: int, exact: int, net: int, baseUnits: int, paid: int)
    requires 0 < u && 0 < u3 && 0 < baseUnits
    requires net * u3 - 2 * u3 <= exact <= net * u3 + 2 * u3
    requires paid * u <= net * baseUnits < paid * u + u
    ensures paid * u * u3 <= exact * baseUnits + 2 * baseUnits * u3
    ensures exact * baseUnits < (paid + 1) * u * u3 + 2 * baseUnits * u3
  {
    assert net * baseUnits * u3 - 2 * baseUnits * u3 <= exact * baseUnits
        <= net * baseUnits * u3 + 2 * baseUnits * u3 by {
      Mono(net * u3 - 2 * u3, exact, baseUnits);
      Mono(exact, net * u3 + 2 * u3, baseUnits);
      Distribute(net * u3, 2 * u3, baseUnits);
      Swap(net, u3, baseUnits);
      Swap(2, u3, baseUnits);
    }
    assert paid * u * u3 <= net * baseUnits * u3 < (paid + 1) * u * u3 by {
      Mono(paid * u, net * baseUnits, u3);
      Distribute(paid, 1, u);
      MonoStrict(net * baseUnits, (paid + 1) * u, u3);
    }
  }

  /**
   What a redemption pays is the exact V * Q * (1 - premium) * (1 - fees) in base units, to within one base unit
   plus 2 * B / U: with U^4 cleared from the denominators, both sides of the bracket.
   */
  lemma RedeemNearExact(quantity: int, valuation: int, baseUnits: int, fees: Fees)
    requires 0 <= quantity && 0 <= valuation && 0 < baseUnits && fees.Valid()
    ensures var paid := ReserveRedeemQuantity(quantity, valuation, baseUnits, fees);
            var u3 := PRECISE_UNIT * PRECISE_UNIT * PRECISE_UNIT;
            var exact := valuation * quantity * (PRECISE_UNIT - fees.premium)
                         * (PRECISE_UNIT - fees.manager - fees.protocol) * baseUnits;
            && paid * PRECISE_UNIT * u3 <= exact + 2 * baseUnits * u3
            && exact < (paid + 1) * PRECISE_UNIT * u3 + 2 * baseUnits * u3
  {
    var notional := PreciseMul(valuation, quantity);
    var keep, kept := PRECISE_UNIT - fees.premium, PRECISE_UNIT - fees.manager - fees.protocol;
    MulFloor(valuation, quantity);
    AfterPremiumNearExact(notional, fees.premium);
    NotionalAfterPremium(notional, fees.premium);
    var gross := notional - PreciseMulCeil(notional, fees.premium);
    PostFeeNearExact(gross, fees);
    PostFeeWithin(gross, fees);
    var net := PostFeeQuantity(gross, fees);
    MulFloor(net, baseUnits);
    var u, u2 := PRECISE_UNIT, PRECISE_UNIT * PRECISE_UNIT;
    MonoStrict(0, u, u);
    MonoStrict(0, u2, u);
    TwoFloors(u, valuation * quantity, notional, gross, keep);
    Associate(gross, u, u);
    Associate(2, u, u);
    FloorsThenFees(u, u2, u2 * u, valuation * quantity * keep, gross, net, kept);
    IntoBaseUnits(u, u2 * u, valuation * quantity * keep * kept, net, baseUnits, PreciseMul(net, baseUnits));
  }

  /** What leaves the position is the exact V * Q * (1 - premium) in base units, bracketed in the same way. */
  lemma OutflowNearExact(quantity: int, valuation: int, baseUnits: int, fees: Fees)
    requires 0 <= quantity && 0 <= valuation && 0 < baseUnits && 0 <= fees.premium <= PRECISE_UNIT
    ensures var outflow := ReserveOutflow(quantity, valuation, baseUnits, fees);
            var u2 := PRECISE_UNIT * PRECISE_UNIT;
            var exact := valuation * quantity * (PRECISE_UNIT - fees.premium) * baseUnits;
            outflow * PRECISE_UNIT * u2 <= exact < (outflow + 1) * PRECISE_UNIT * u2 + 2 * baseUnits * u2
  {
    var notional := PreciseMul(valuation, quantity);
    MulFloor(valuation, quantity);
    AfterPremiumNearExact(notional, fees.premium);
    NotionalAfterPremium(notional, fees.premium);
    var gross := notional - PreciseMulCeil(notional, fees.premium);
    MulFloor(gross, baseUnits);
    var u, keep := PRECISE_UNIT, PRECISE_UNIT - fees.premium;
    MonoStrict(0, u, u);
    TwoFloors(u, valuation * quantity, notional, gross, keep);
    Associate(gross, u, u);
    Associate(2, u, u);
    FloorIntoBaseUnits(u, u * u, valuation * quantity * keep, gross, baseUnits, PreciseMul(gross, baseUnits));
  }

  lemma FloorIntoBaseUnits(u: int, u2: int, exact: int, gross: int, baseUnits: int, paid: int)
    requires 0 < u && 0 < u2 && 0 < baseUnits
    requires gross * u2 <= exact < gross * u2 + 2 * u2
    requires paid * u <= gross * baseUnits < paid * u + u
    ensures paid * u * u2 <= exact * baseUnits < (paid + 1) * u * u2 + 2 * baseUnits * u2
  {
    assert gross * baseUnits * u2 <= exact * baseUnits < gross * baseUnits * u2 + 2 * baseUnits * u2 by {
      Mono(gross * u2, exact, baseUnits);
      MonoStrict(exact, gross * u2 + 2 * u2, baseUnits);
      Distribute(gross * u2, 2 * u2, baseUnits);
      Swap(gross, u2, baseUnits);
      Swap(2, u2, baseUnits);
    }
    Mono(paid * u, gross * baseUnits, u2);
    Distribute(paid, 1, u);
    MonoStrict(gross * baseUnits, (paid + 1) * u, u2);
  }

  // ----- position multiplier

  /** One issue: the multiplier falls at least in proportion to the supply, and by no more than rounding. */
  lemma IssueMultiplierBounds(multiplier: int, supply0: int, supply1: int)
    requires 0 <= multiplier && 0 <= supply0 <= supply1 && 0 < supply1
    ensures var m := IssuePositionMultiplier(multiplier, supply0, supply1);
            && 0 <= m && m * supply1 <= multiplier * supply0
            && multiplier * supply0 * PRECISE_UNIT < (m + 1) * supply1 * PRECISE_UNIT + multiplier * supply1
  {
    var inflation := PreciseDivCeil(supply1 - supply0, supply1);
    DivCeil(supply1 - supply0, supply1);
    RatioAfterInflation(PRECISE_UNIT, supply0, supply1, inflation);
    ScaledMultiplier(multiplier, PRECISE_UNIT - inflation, supply0, supply1);
  }

  lemma RatioAfterInflation(u: int, supply0: int, supply1: int, inflation: int)
    requires 0 < u && 0 <= supply0 <= supply1 && 0 < supply1
    requires (supply1 - supply0) * u <= inflation * supply1 < (supply1 - supply0) * u + supply1
    ensures inflation <= u && (u - inflation) * supply1 <= supply0 * u < (u - inflation) * supply1 + supply1
  {
    Distribute(supply1, supply0, u);
    Distribute(u, inflation, supply1);
    NonNegative(supply0, u);
    Distribute(u, 1, supply1);
    CancelStrict(inflation, u + 1, supply1);
  }

  lemma RatioAfterDeflation(u: int, supply0: int, supply1: int, deflation: int)
    requires deflation * supply1 <= (supply0 - supply1) * u < deflation * supply1 + supply1
    ensures (u + deflation) * supply1 <= supply0 * u < (u + deflation) * supply1 + supply1
  {
    Distribute(supply0, supply1, u);
    Distribute(u, deflation, supply1);
  }

  lemma RedeemMultiplierBounds(multiplier: int, supply0: int, supply1: int)
    requires 0 <= multiplier && 0 < supply1 <= supply0
    ensures var m := RedeemPositionMultiplier(multiplier, supply0, supply1).value;
            && 0 <= m && m * supply1 <= multiplier * supply0
            && multiplier * supply0 * PRECISE_UNIT < (m + 1) * supply1 * PRECISE_UNIT + multiplier * supply1
  {
    var deflation := PreciseDiv(supply0 - supply1, supply1);
    DivFloor(supply0 - supply1, supply1);
    RatioAfterDeflation(PRECISE_UNIT, supply0, supply1, deflation);
    ScaledMultiplier(multiplier, PRECISE_UNIT + deflation, supply0, supply1);
  }

  /** A multiplier scaled by a rounded-down supply ratio. */
  lemma ScaledMultiplier(multiplier: int, ratio: int, supply0: int, supply1: int)
    requires 0 <= multiplier && 0 <= ratio && 0 <= supply0 && 0 < supply1
    requires ratio * supply1 <= supply0 * PRECISE_UNIT < ratio * supply1 + supply1
    ensures var m := PreciseMul(multiplier, ratio);
            && 0 <= m && m * supply1 <= multiplier * supply0
            && multiplier * supply0 * PRECISE_UNIT < (m + 1) * supply1 * PRECISE_UNIT + multiplier * supply1
  {
    MulFloor(multiplier, ratio);
    ScaledAlgebra(PRECISE_UNIT, multiplier, ratio, supply0, supply1, PreciseMul(multiplier, ratio));
  }

  /** Both multipliers reach y exactly when the ratio of the supplies reaches what y takes of the old one. */
  lemma MultiplierExactly(multiplier: int, supply0: int, supply1: int, y: nat)
    requires 0 < multiplier && 0 <= supply0 && 0 < supply1
    ensures supply0 <= supply1 ==>
              (y <= IssuePositionMultiplier(multiplier, supply0, supply1)
               <==> Needed(y, multiplier) * supply1 <= supply0 * PRECISE_UNIT)
    ensures supply1 <= supply0 ==>
              (y <= RedeemPositionMultiplier(multiplier, supply0, supply1).value
               <==> Needed(y, multiplier) * supply1 <= supply0 * PRECISE_UNIT)
  {
    if supply0 <= supply1 {
      var inflation := PreciseDivCeil(supply1 - supply0, supply1);
      DivCeil(supply1 - supply0, supply1);
      RatioAfterInflation(PRECISE_UNIT, supply0, supply1, inflation);
      RatioReaches(multiplier, PRECISE_UNIT - inflation, supply0, supply1, y);
    }
    if supply1 <= supply0 {
      var deflation := PreciseDiv(supply0 - supply1, supply1);
      DivFloor(supply0 - supply1, supply1);
      RatioAfterDeflation(PRECISE_UNIT, supply0, supply1, deflation);
      RatioReaches(multiplier, PRECISE_UNIT + deflation, supply0, supply1, y);
    }
  }

  lemma RatioReaches(multiplier: int, ratio: int, supply0: int, supply1: int, y: nat)
    requires 0 < multiplier && 0 <= ratio && 0 < supply1
    requires ratio * supply1 <= supply0 * PRECISE_UNIT < ratio * supply1 + supply1
    ensures y <= PreciseMul(multiplier, ratio) <==> Needed(y, multiplier) * supply1 <= supply0 * PRECISE_UNIT
  {
    ScalingReaches(ratio, multiplier, y);
    FloorAtLeast(supply0 * PRECISE_UNIT, supply1, ratio, Needed(y, multiplier));
    assert multiplier * ratio == ratio * multiplier;
  }

  lemma ScaledAlgebra(u: int, multiplier: int, ratio: int, supply0: int, supply1: int, m: int)
    requires 0 < u && 0 <= multiplier && 0 < supply1
    requires ratio * supply1 <= supply0 * u < ratio * supply1 + supply1
    requires m * u <= multiplier * ratio < m * u + u
    ensures m * supply1 <= multiplier * supply0
    ensures multiplier * supply0 * u < (m + 1) * supply1 * u + multiplier * supply1
  {
    var mid := multiplier * ratio * supply1;
    assert m * supply1 * u <= mid < (m + 1) * supply1 * u by {
      Mono(m * u, multiplier * ratio, supply1);
      Distribute(m, 1, u);
      MonoStrict(multiplier * ratio, (m + 1) * u, supply1);
      Swap(m, u, supply1);
      Swap(m + 1, u, supply1);
    }
    assert mid <= multiplier * supply0 * u <= mid + multiplier * supply1 by {
      Mono(ratio * supply1, supply0 * u, multiplier);
      Mono(supply0 * u, ratio * supply1 + supply1, multiplier);
      Distribute(ratio * supply1, supply1, multiplier);
      Associate(multiplier, ratio, supply1);
      Swap(supply0, u, multiplier);
    }
    Cancel(m * supply1, multiplier * supply0, u);
  }

  /** One issue or redemption, told apart by the direction the supply moves. */
  function StepMultiplier(multiplier: int, supply0: int, supply1: int): (r: int)
    requires 0 < supply1
  {
    if supply0 <= supply1 then IssuePositionMultiplier(multiplier, supply0, supply1)
    else RedeemPositionMultiplier(multiplier, supply0, supply1).value
  }

  /** The multiplier after the supply has gone through `supplies`. */
  function RunMultiplier(multiplier: int, supplies: seq<int>): (r: int)
    requires |supplies| > 0 && forall i :: 0 <= i < |supplies| ==> 0 < supplies[i]
    decreases |supplies|
  {
    var n := |supplies| - 1;
    if n == 0 then multiplier
    else StepMultiplier(RunMultiplier(multiplier, supplies[..n]), supplies[n - 1], supplies[n])
  }

  /** The most that the roundings of a run can take off multiplier * supply. */
  function RunMultiplierLoss(multiplier: int, supplies: seq<int>): (r: int)
    requires |supplies| > 0 && forall i :: 0 <= i < |supplies| ==> 0 < supplies[i]
    decreases |supplies|
  {
    var n := |supplies| - 1;
    if n == 0 then 0
    else
      RunMultiplierLoss(multiplier, supplies[..n]) + supplies[n]
      + CeilDiv(Abs(RunMultiplier(multiplier, supplies[..n]) * supplies[n]), PRECISE_UNIT)
  }

  /** Over any run of issues and redemptions, multiplier * supply never increases, nor falls by more than rounding. */
  lemma {:induction false} MultiplierTimesSupplyNeverGrows(multiplier: int, supplies: seq<int>)
    requires 0 <= multiplier
    requires |supplies| > 0 && forall i :: 0 <= i < |supplies| ==> 0 < supplies[i]
    ensures 0 <= RunMultiplier(multiplier, supplies)
    ensures multiplier * supplies[0] - RunMultiplierLoss(multiplier, supplies)
            <= RunMultiplier(multiplier, supplies) * supplies[|supplies| - 1] <= multiplier * supplies[0]
    decreases |supplies|
  {
    var n := |supplies| - 1;
    if n > 0 {
      MultiplierTimesSupplyNeverGrows(multiplier, supplies[..n]);
      var m := RunMultiplier(multiplier, supplies[..n]);
      if supplies[n - 1] <= supplies[n] {
        IssueMultiplierBounds(m, supplies[n - 1], supplies[n]);
      } else {
        RedeemMultiplierBounds(m, supplies[n - 1], supplies[n]);
      }
      MultiplierLoss(PRECISE_UNIT, m, supplies[n - 1], supplies[n], RunMultiplier(multiplier, supplies));
    }
  }

  lemma MultiplierLoss(u: int, before: int, supply0: int, supply1: int, after: int)
    requires u == PRECISE_UNIT && 0 <= before && 0 < supply1
    requires before * supply0 * u < (after + 1) * supply1 * u + before * supply1
    ensures before * supply0 - (supply1 + CeilDiv(Abs(before * supply1), u)) <= after * supply1
  {
    NonNegative(before, supply1);
    var c := CeilDiv(before * supply1, u);
    Distribute((after + 1) * supply1, c, u);
    CancelStrict(before * supply0, (after + 1) * supply1 + c, u);
    Distribute(after, 1, supply1);
  }

  // ----- what divides by zero

  /**
   Exactly when the computations throw. The issue multiplier never does: its rounded division answers zero to a zero
   supply, which leaves the multiplier as it was.
   */
  lemma ThrowsExactly(
    unit: int, quantity: int, valuation: int, baseUnits: int, supply0: int, supply1: int, multiplier: int, fees: Fees)
    ensures IssueQuantity(supply0, valuation, 0, quantity, fees).None?
    ensures IssuePositionUnit(unit, quantity, supply0, supply1, multiplier, fees).None?
            <==> supply1 == 0 || multiplier == 0
    ensures RedeemPositionUnit(unit, quantity, valuation, baseUnits, supply0, supply1, multiplier, fees).None?
            <==> supply1 == 0 || multiplier == 0
    ensures RedeemPositionMultiplier(multiplier, supply0, supply1).None? <==> supply1 == 0
    ensures IssuePositionMultiplier(multiplier, supply0, 0) == multiplier
  {
    MulTruncates(multiplier, PRECISE_UNIT);
    WholeProduct(PreciseMul(multiplier, PRECISE_UNIT), multiplier, PRECISE_UNIT);
  }

  lemma WholeProduct(q: int, n: int, u: int)
    requires 0 < u && IsTruncated(q, n * u, u)
    ensures q == n
  {
    NonNegative(Abs(n), u);
    assert Abs(n * u) == Abs(n) * u;
    Distribute(Abs(q), 1, u);
    Cancel(Abs(q), Abs(n), u);
    CancelStrict(Abs(n), Abs(q) + 1, u);
    if n > 0 { MonoStrict(0, n, u); }
  }

  // ----- position unit

  /** Passing through virtual units loses at most one unit beyond one unit of virtual precision. */
  lemma VirtualRoundTripBounds(unit: int, multiplier: int)
    requires 0 <= unit && 0 < multiplier
    ensures var r := VirtualRoundTrip(unit, multiplier);
            0 <= r <= unit && (unit - r - 1) * multiplier < PRECISE_UNIT
  {
    var virtual := PreciseMul(unit, multiplier);
    MulFloor(unit, multiplier);
    DivFloor(virtual, multiplier);
    var r := VirtualRoundTrip(unit, multiplier);
    Cancel(r, unit, multiplier);
    assert (unit - r - 1) * multiplier == unit * multiplier - (r * multiplier + multiplier);
  }

  /** Passing through virtual units leaves y or more exactly from the real unit on that y takes. */
  lemma VirtualRoundTripExactly(unit: int, multiplier: int, y: nat)
    requires 0 <= unit && 0 < multiplier
    ensures y <= VirtualRoundTrip(unit, multiplier) <==> Needed(NeededToDivide(y, multiplier), multiplier) <= unit
  {
    MulFloor(unit, multiplier);
    DivisionReaches(PreciseMul(unit, multiplier), multiplier, y);
    ScalingReaches(unit, multiplier, NeededToDivide(y, multiplier));
  }

  /** The least balance that is written back as a unit of y or more. */
  function BalanceForUnit(y: nat, supply1: int, multiplier: int): (r: nat)
    requires 0 < supply1 && 0 < multiplier
  {
    NeededToDivide(Needed(NeededToDivide(y, multiplier), multiplier), supply1)
  }

  lemma UnitReaches(balance: int, supply1: int, multiplier: int, y: nat)
    requires 0 <= balance && 0 < supply1 && 0 < multiplier
    ensures y <= VirtualRoundTrip(PreciseDiv(balance, supply1), multiplier)
            <==> BalanceForUnit(y, supply1, multiplier) <= balance
  {
    DivFloor(balance, supply1);
    VirtualRoundTripExactly(PreciseDiv(balance, supply1), multiplier, y);
    DivisionReaches(balance, supply1, Needed(NeededToDivide(y, multiplier), multiplier));
  }

  /** An issue writes back y or more exactly when the old reserve and the net deposit make up the balance for y. */
  lemma IssueUnitExactly(
    unit: int, deposit: int, supply0: int, supply1: int, multiplier: int, fees: Fees, y: nat)
    requires 0 <= unit && 0 <= deposit && 0 <= supply0 && 0 < supply1 && 0 < multiplier && fees.Valid()
    ensures var r := IssuePositionUnit(unit, deposit, supply0, supply1, multiplier, fees);
            && r.Some?
            && (y <= r.value
                <==> BalanceForUnit(y, supply1, multiplier)
                     <= supply0 * unit / PRECISE_UNIT + PostFeeQuantity(deposit, fees))
  {
    MulFloor(supply0, unit);
    MulIsQuotient(supply0, unit);
    PostFeeWithin(deposit, fees);
    UnitReaches(PreciseMul(supply0, unit) + PostFeeQuantity(deposit, fees), supply1, multiplier, y);
  }

  /** A covered redemption does so exactly when the old reserve less the outflow does. */
  lemma RedeemUnitExactly(
    unit: int, quantity: int, valuation: int, baseUnits: int, supply0: int, supply1: int, multiplier: int, fees: Fees,
    y: nat)
    requires 0 <= unit && 0 <= supply0 && 0 < supply1 && 0 < multiplier
    requires ReserveOutflow(quantity, valuation, baseUnits, fees) <= PreciseMul(supply0, unit)
    ensures var r := RedeemPositionUnit(unit, quantity, valuation, baseUnits, supply0, supply1, multiplier, fees);
            && r.Some?
            && (y <= r.value
                <==> BalanceForUnit(y, supply1, multiplier)
                     <= supply0 * unit / PRECISE_UNIT - ReserveOutflow(quantity, valuation, baseUnits, fees))
  {
    MulIsQuotient(supply0, unit);
    UnitReaches(PreciseMul(supply0, unit) - ReserveOutflow(quantity, valuation, baseUnits, fees),
                supply1, multiplier, y);
  }

  /** A unit written back from a non-negative balance claims no more than that balance. */
  lemma UnitNeverOverclaims(balance: int, supply1: int, multiplier: int)
    requires 0 <= balance && 0 < supply1 && 0 < multiplier
    ensures var r := VirtualRoundTrip(PreciseDiv(balance, supply1), multiplier);
            && 0 <= r && r * supply1 <= balance * PRECISE_UNIT
            && balance * PRECISE_UNIT * multiplier < (r + 2) * supply1 * multiplier + supply1 * PRECISE_UNIT
  {
    var unit := PreciseDiv(balance, supply1);
    DivFloor(balance, supply1);
    VirtualRoundTripBounds(unit, multiplier);
    var r := VirtualRoundTrip(unit, multiplier);
    Mono(r, unit, supply1);
    LossOfBothSteps(balance * PRECISE_UNIT, unit, r, supply1, multiplier);
  }

  lemma LossOfBothSteps(scaled: int, unit: int, r: int, supply1: int, multiplier: int)
    requires 0 < supply1 && 0 < multiplier && scaled < unit * supply1 + supply1
    requires (unit - r - 1) * multiplier < PRECISE_UNIT
    ensures scaled * multiplier < (r + 2) * supply1 * multiplier + supply1 * PRECISE_UNIT
  {
    MonoStrict((unit - r - 1) * multiplier, PRECISE_UNIT, supply1);
    Swap(unit - r - 1, multiplier, supply1);
    Distribute(unit, 1, supply1);
    MonoStrict(scaled, (unit + 1) * supply1, multiplier);
    Distribute(unit + 1, r + 2, supply1);
    Distribute((unit + 1) * supply1, (r + 2) * supply1, multiplier);
  }

  lemma IssueUnitNeverOverclaims(unit: int, deposit: int, supply0: int, supply1: int, multiplier: int, fees: Fees)
    requires 0 <= unit && 0 <= deposit && 0 <= supply0 && 0 < supply1 && 0 < multiplier && fees.Valid()
    ensures var r := IssuePositionUnit(unit, deposit, supply0, supply1, multiplier, fees);
            && r.Some? && 0 <= r.value
            && ClaimsNearly(supply0 * unit, PostFeeQuantity(deposit, fees), r.value, supply1, multiplier)
  {
    MulFloor(supply0, unit);
    PostFeeWithin(deposit, fees);
    var net := PostFeeQuantity(deposit, fees);
    UnitNeverOverclaims(PreciseMul(supply0, unit) + net, supply1, multiplier);
    ClaimAlgebra(PRECISE_UNIT, supply0 * unit, PreciseMul(supply0, unit), net,
                 VirtualRoundTrip(PreciseDiv(PreciseMul(supply0, unit) + net, supply1), multiplier),
                 supply1, multiplier);
  }

  /**
   A new unit over a new supply claims at most the old claim plus what has come in, and falls short of it by less than
   one base unit, two units of every token, and every token's share of one unit of virtual precision.
   */
  predicate ClaimsNearly(claim: int, net: int, unit: int, supply1: int, multiplier: int)
  {
    && unit * supply1 <= claim + net * PRECISE_UNIT
    && (claim + (net - 1) * PRECISE_UNIT) * multiplier < (unit + 2) * supply1 * multiplier + supply1 * PRECISE_UNIT
  }

  lemma ClaimAlgebra(u: int, claim: int, held: int, net: int, unit: int, supply1: int, multiplier: int)
    requires u == PRECISE_UNIT && 0 < multiplier && held * u <= claim < held * u + u
    requires unit * supply1 <= (held + net) * u
    requires (held + net) * u * multiplier < (unit + 2) * supply1 * multiplier + supply1 * u
    ensures ClaimsNearly(claim, net, unit, supply1, multiplier)
  {
    Distribute(held, net, u);
    Distribute(net, 1, u);
    Mono(claim + (net - 1) * u, (held + net) * u, multiplier);
  }

  /**
   A redemption the position can cover (the outflow is at most the reserve the old unit stands for) writes
   back a unit that claims no more than what is left, and no less than rounding makes of it.
   */
  lemma RedeemUnitNeverOverclaims(
    unit: int, quantity: int, valuation: int, baseUnits: int, supply0: int, supply1: int, multiplier: int, fees: Fees)
    requires 0 <= unit && 0 <= supply0 && 0 < supply1 && 0 < multiplier
    requires ReserveOutflow(quantity, valuation, baseUnits, fees) <= PreciseMul(supply0, unit)
    ensures var r := RedeemPositionUnit(unit, quantity, valuation, baseUnits, supply0, supply1, multiplier, fees);
            && r.Some? && 0 <= r.value
            && ClaimsNearly(
                 supply0 * unit, -ReserveOutflow(quantity, valuation, baseUnits, fees), r.value, supply1, multiplier)
  {
    MulFloor(supply0, unit);
    var net := -ReserveOutflow(quantity, valuation, baseUnits, fees);
    UnitNeverOverclaims(PreciseMul(supply0, unit) + net, supply1, multiplier);
    ClaimAlgebra(PRECISE_UNIT, supply0 * unit, PreciseMul(supply0, unit), net,
                 VirtualRoundTrip(PreciseDiv(PreciseMul(supply0, unit) + net, supply1), multiplier),
                 supply1, multiplier);
  }

  // ----- whole runs against one position

  /** What an issue or a redemption is called with, and the token's supply and multiplier after it. */
  datatype Event =
    | Issue(deposit: int, fees: Fees, supply1: int, multiplier: int)
    | Redeem(quantity: int, valuation: int, baseUnits: int, fees: Fees, supply1: int, multiplier: int)

  /** The reserve asset's real unit per token, and the supply. */
  datatype Position = Position(unit: int, supply: int)

  /** Reserve asset entering the position. */
  function NetFlow(e: Event): (r: int)
  {
    match e
    case Issue(deposit, fees, _, _) => PostFeeQuantity(deposit, fees)
    case Redeem(quantity, valuation, baseUnits, fees, _, _) => -ReserveOutflow(quantity, valuation, baseUnits, fees)
  }

  function After(p: Position, e: Event): (r: Position)
    requires 0 < e.supply1 && 0 < e.multiplier
  {
    var unit :=
      match e
      case Issue(deposit, fees, supply1, multiplier) =>
        IssuePositionUnit(p.unit, deposit, p.supply, supply1, multiplier, fees)
      case Redeem(quantity, valuation, baseUnits, fees, supply1, multiplier) =>
        RedeemPositionUnit(p.unit, quantity, valuation, baseUnits, p.supply, supply1, multiplier, fees);
    Position(unit.value, e.supply1)
  }

  /** Deposits are real, and a redemption takes no more than the reserve the unit stands for. */
  predicate Covered(p: Position, e: Event)
  {
    match e
    case Issue(deposit, fees, _, _) => 0 <= deposit && fees.Valid()
    case Redeem(_, _, _, _, _, _) => -NetFlow(e) <= PreciseMul(p.supply, p.unit)
  }

  predicate PositiveEvents(events: seq<Event>)
  {
    forall i :: 0 <= i < |events| ==> 0 < events[i].supply1 && 0 < events[i].multiplier
  }

  function RunPosition(p: Position, events: seq<Event>): (r: Position)
    requires PositiveEvents(events)
  {
    if events == [] then p
    else After(RunPosition(p, events[..|events| - 1]), events[|events| - 1])
  }

  function RunFlow(events: seq<Event>): (r: int)
  {
    if events == [] then 0 else RunFlow(events[..|events| - 1]) + NetFlow(events[|events| - 1])
  }

  predicate RunCovered(p: Position, events: seq<Event>)
    requires PositiveEvents(events)
  {
    if events == [] then true
    else
      var n := |events| - 1;
      RunCovered(p, events[..n]) && Covered(RunPosition(p, events[..n]), events[n])
  }

  /** The most that one event's roundings can take off what the tokens claim. */
  function Loss(supply1: int, multiplier: int): (r: int)
    requires 0 < supply1 && 0 < multiplier
  {
    NonNegative(supply1, PRECISE_UNIT);
    PRECISE_UNIT + 2 * supply1 + CeilDiv(supply1 * PRECISE_UNIT, multiplier)
  }

  function RunLoss(events: seq<Event>): (r: int)
    requires PositiveEvents(events)
  {
    if events == [] then 0
    else
      var last := events[|events| - 1];
      RunLoss(events[..|events| - 1]) + Loss(last.supply1, last.multiplier)
  }

  /**
   What all tokens together claim never exceeds what they claimed at first plus what has come in since, and falls
   short of it by no more than the roundings of the run.
   */
  lemma {:induction false} RunNeverOverclaims(p: Position, events: seq<Event>)
    requires 0 <= p.unit && 0 <= p.supply && PositiveEvents(events)
    requires RunCovered(p, events)
    ensures 0 <= RunPosition(p, events).unit && 0 <= RunPosition(p, events).supply
    ensures ClaimsWithin(p, RunPosition(p, events), RunFlow(events), RunLoss(events))
  {
    if events != [] {
      var n := |events| - 1;
      RunNeverOverclaims(p, events[..n]);
      EventNeverOverclaims(RunPosition(p, events[..n]), events[n]);
      FlowsAdd(p, RunPosition(p, events[..n]), RunPosition(p, events),
               RunFlow(events[..n]), NetFlow(events[n]),
               RunLoss(events[..n]), Loss(events[n].supply1, events[n].multiplier));
    }
  }

  /** From one position to another, all tokens together claim the flow more, short of it by at most the loss. */
  predicate ClaimsWithin(p: Position, q: Position, flow: int, loss: int)
  {
    var exact := p.unit * p.supply + flow * PRECISE_UNIT;
    exact - loss <= q.unit * q.supply <= exact
  }

  lemma EventNeverOverclaims(p: Position, e: Event)
    requires 0 <= p.unit && 0 <= p.supply && 0 < e.supply1 && 0 < e.multiplier && Covered(p, e)
    ensures After(p, e).supply == e.supply1 && 0 <= After(p, e).unit
    ensures ClaimsWithin(p, After(p, e), NetFlow(e), Loss(e.supply1, e.multiplier))
  {
    EventClaimsNearly(p, e);
    ClaimLoss(p, After(p, e), NetFlow(e), e.multiplier);
  }

  lemma EventClaimsNearly(p: Position, e: Event)
    requires 0 <= p.unit && 0 <= p.supply && 0 < e.supply1 && 0 < e.multiplier && Covered(p, e)
    ensures After(p, e).supply == e.supply1 && 0 <= After(p, e).unit
    ensures ClaimsNearly(p.supply * p.unit, NetFlow(e), After(p, e).unit, e.supply1, e.multiplier)
  {
    match e
    case Issue(deposit, fees, supply1, multiplier) =>
      IssueUnitNeverOverclaims(p.unit, deposit, p.supply, supply1, multiplier, fees);
    case Redeem(quantity, valuation, baseUnits, fees, supply1, multiplier) =>
      RedeemUnitNeverOverclaims(p.unit, quantity, valuation, baseUnits, p.supply, supply1, multiplier, fees);
  }

  /** The shortfall with its division carried out. */
  lemma ClaimLoss(p: Position, q: Position, net: int, multiplier: int)
    requires 0 < q.supply && 0 < multiplier
    requires ClaimsNearly(p.supply * p.unit, net, q.unit, q.supply, multiplier)
    ensures ClaimsWithin(p, q, net, Loss(q.supply, multiplier))
  {
    NonNegative(q.supply, PRECISE_UNIT);
    LossAlgebra(PRECISE_UNIT, p.supply * p.unit, net, q.unit, q.supply, multiplier,
                CeilDiv(q.supply * PRECISE_UNIT, multiplier));
  }

  lemma LossAlgebra(u: int, claim: int, net: int, unit: int, supply1: int, multiplier: int, c: int)
    requires 0 < multiplier && supply1 * u <= c * multiplier
    requires (claim + (net - 1) * u) * multiplier < (unit + 2) * supply1 * multiplier + supply1 * u
    ensures claim + net * u - (u + 2 * supply1 + c) <= unit * supply1
  {
    Distribute((unit + 2) * supply1, c, multiplier);
    CancelStrict(claim + (net - 1) * u, (unit + 2) * supply1 + c, multiplier);
    Distribute(unit, 2, supply1);
    Distribute(net, 1, u);
  }

  lemma FlowsAdd(p: Position, q: Position, r: Position, flow: int, net: int, lost: int, loss: int)
    requires ClaimsWithin(p, q, flow, lost) && ClaimsWithin(q, r, net, loss)
    ensures ClaimsWithin(p, r, flow + net, lost + loss)
  {
    Distribute(flow, net, PRECISE_UNIT);
  }

  // ----- a redemption the position cannot cover

  /** How far the outflow exceeds the reserve that the old unit stands for. */
  function Short(unit: int, supply0: int, outflow: int): (r: int)
  {
    outflow - PreciseMul(supply0, unit)
  }

  /** Every rounding on the way to a unit truncates: a missing balance is written back as a rounded-down debt. */
  lemma UnitOfDebt(short: int, supply1: int, multiplier: int)
    requires 0 < short && 0 < supply1 && 0 < multiplier
    ensures VirtualRoundTrip(PreciseDiv(-short, supply1), multiplier)
            == -VirtualRoundTrip(PreciseDiv(short, supply1), multiplier)
  {
    var unit := PreciseDiv(short, supply1);
    var virtual := PreciseMul(unit, multiplier);
    TruncOdd(short * PRECISE_UNIT, supply1);
    Distribute(0, short, PRECISE_UNIT);
    TruncOdd(unit * multiplier, PRECISE_UNIT);
    Distribute(0, unit, multiplier);
    TruncOdd(virtual * PRECISE_UNIT, multiplier);
    Distribute(0, virtual, PRECISE_UNIT);
  }

  /**
   A redemption the position cannot cover is not refused. It writes back a debt, rounded down, so the new unit may
   claim more than what is left; it does not exactly when the shortfall is one that the roundings pass on whole.
   */
  lemma RedeemUnitWhenShort(
    unit: int, quantity: int, valuation: int, baseUnits: int, supply0: int, supply1: int, multiplier: int, fees: Fees)
    requires 0 <= unit && 0 <= supply0 && 0 < supply1 && 0 < multiplier
    requires ReserveOutflow(quantity, valuation, baseUnits, fees) > PreciseMul(supply0, unit)
    ensures var outflow := ReserveOutflow(quantity, valuation, baseUnits, fees);
            var r := RedeemPositionUnit(unit, quantity, valuation, baseUnits, supply0, supply1, multiplier, fees);
            var short, owed := Short(unit, supply0, outflow), outflow * PRECISE_UNIT - supply0 * unit;
            && r.Some? && r.value <= 0 && -r.value * supply1 <= short * PRECISE_UNIT && 0 < owed
            && (r.value * supply1 <= supply0 * unit - outflow * PRECISE_UNIT
                <==> BalanceForUnit(CeilDiv(owed, supply1), supply1, multiplier) <= short)
  {
    var outflow := ReserveOutflow(quantity, valuation, baseUnits, fees);
    var short, owed := Short(unit, supply0, outflow), outflow * PRECISE_UNIT - supply0 * unit;
    MulFloor(supply0, unit);
    OwedIsPositive(PRECISE_UNIT, PreciseMul(supply0, unit), supply0 * unit, outflow);
    UnitOfDebt(short, supply1, multiplier);
    UnitNeverOverclaims(short, supply1, multiplier);
    var debt := VirtualRoundTrip(PreciseDiv(short, supply1), multiplier);
    UnitReaches(short, supply1, multiplier, CeilDiv(owed, supply1));
    DebtCovers(debt, owed, supply1);
  }

  lemma OwedIsPositive(u: int, whole: int, held: int, outflow: int)
    requires 0 < u && held < whole * u + u && whole < outflow
    ensures 0 < outflow * u - held
  {
    Mono(whole + 1, outflow, u);
    Distribute(whole, 1, u);
  }

  lemma DebtCovers(debt: int, owed: int, supply1: int)
    requires 0 <= owed && 0 < supply1
    ensures -debt * supply1 <= -owed <==> CeilDiv(owed, supply1) <= debt
  {
    var c := CeilDiv(owed, supply1);
    Distribute(0, debt, supply1);
    if c <= debt { Mono(c, debt, supply1); }
    if owed <= debt * supply1 {
      Distribute(debt, 1, supply1);
      CancelStrict(c, debt + 1, supply1);
    }
  }

  /** It does happen: an empty position pays out one and is written back as empty, not as owing. */
  lemma ShortRedemptionForgetsDebt()
    ensures var fees, u, supply1 := Fees(0, 0, 0), PRECISE_UNIT, PRECISE_UNIT + 1;
            var r := RedeemPositionUnit(0, 1, u, u, supply1 + 1, supply1, u, fees);
            && ReserveOutflow(1, u, u, fees) == 1 && r == Some(0)
            && r.value * supply1 > (supply1 + 1) * 0 - ReserveOutflow(1, u, u, fees) * u
  {
    var u := PRECISE_UNIT;
    MulIs(u, 1, 1);
    MulIs(1, u, 1);
    MulIs(1, 0, 0);
    MulIs(u + 2, 0, 0);
    MulIs(0, u, 0);
    DivIs(1, u + 1, 0);
    DivIs(0, u, 0);
    UnitOfDebt(1, u + 1, u);
  }

  /** What leaves the position covers what the redeemer is paid: the fees are paid out of the difference. */
  lemma OutflowCoversRedemption(quantity: int, valuation: int, baseUnits: int, fees: Fees)
    requires 0 <= quantity && 0 <= valuation && 0 < baseUnits && fees.Valid()
    ensures ReserveRedeemQuantity(quantity, valuation, baseUnits, fees)
            <= ReserveOutflow(quantity, valuation, baseUnits, fees)
  {
    var notional := PreciseMul(valuation, quantity);
    MulFloor(valuation, quantity);
    NotionalAfterPremium(notional, fees.premium);
    var gross := notional - PreciseMulCeil(notional, fees.premium);
    PostFeeWithin(gross, fees);
    MulMonotone(PostFeeQuantity(gross, fees), gross, baseUnits);
  }
}
