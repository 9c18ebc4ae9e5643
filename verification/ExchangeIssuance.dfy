/** Issuing as many set tokens as an exact amount of ETH can buy, through the better of two exchanges per component. */
module ExactEthIssuance {
  import opened Wrappers
  import opened Products
  import opened FixedPoint
  import opened Bytes

  const MAX_UINT_256: int := TWO_256 - 1

  /**
   One component: the units of it in a set token and, unless it is wrapped ETH itself, what each exchange
   quotes. An exchange without a pair for it quotes nothing.
   */
  datatype Component = Component(
    isWeth: bool, unit: nat,
    uniIn: Option<nat>, sushiIn: Option<nat>, uniOut: Option<nat -> nat>, sushiOut: Option<nat -> nat>)

  /** ETH needed to buy one set token's worth: the least quote, a missing one counting as the largest integer. */
  function EthFor(c: Component): (r: nat)
    ensures c.isWeth ==> r == c.unit
    ensures !c.isWeth && c.uniIn.Some? ==> r <= c.uniIn.value
    ensures !c.isWeth && c.sushiIn.Some? ==> r <= c.sushiIn.value
    ensures !c.isWeth && (c.uniIn.None? || c.sushiIn.None?) ==> r <= MAX_UINT_256
    ensures !c.isWeth ==> r == MAX_UINT_256 || Some(r) == c.uniIn || Some(r) == c.sushiIn
    ensures !c.isWeth && r == MAX_UINT_256 ==>
              c.uniIn.None? || c.sushiIn.None? || Some(r) == c.uniIn || Some(r) == c.sushiIn
  {
    if c.isWeth then c.unit
    else
      var uni := if c.uniIn.Some? then c.uniIn.value else MAX_UINT_256;
      var sushi := if c.sushiIn.Some? then c.sushiIn.value else MAX_UINT_256;
      if uni < sushi then uni else sushi
  }

  /** Component bought with an amount of ETH: the greatest quote, and nothing where there is none. */
  function OutFor(c: Component, eth: nat): (r: nat)
    ensures c.isWeth ==> r == eth
    ensures !c.isWeth && c.uniOut.Some? ==> c.uniOut.value(eth) <= r
    ensures !c.isWeth && c.sushiOut.Some? ==> c.sushiOut.value(eth) <= r
    ensures !c.isWeth && r > 0 ==>
              || (c.uniOut.Some? && r == c.uniOut.value(eth))
              || (c.sushiOut.Some? && r == c.sushiOut.value(eth))
  {
    if c.isWeth then eth
    else
      var uni := if c.uniOut.Some? then c.uniOut.value(eth) else 0;
      var sushi := if c.sushiOut.Some? then c.sushiOut.value(eth) else 0;
      if uni > sushi then uni else sushi
  }

  function EthNeeded(cs: seq<Component>): (r: nat)
  {
    if cs == [] then 0 else EthNeeded(cs[..|cs| - 1]) + EthFor(cs[|cs| - 1])
  }

  /** A component's share of the input, in proportion to what one set token's worth of it costs. */
  function Scaled(cs: seq<Component>, ethInput: nat, i: nat): (r: nat)
    requires i < |cs| && 0 < EthNeeded(cs)
    ensures r * EthNeeded(cs) <= EthFor(cs[i]) * ethInput < r * EthNeeded(cs) + EthNeeded(cs)
  {
    NonNegative(EthFor(cs[i]), ethInput);
    TruncIsFloor(EthFor(cs[i]) * ethInput, EthNeeded(cs));
    TruncDiv(EthFor(cs[i]) * ethInput, EthNeeded(cs))
  }

  function Bought(cs: seq<Component>, ethInput: nat, i: nat): (r: nat)
    requires i < |cs| && 0 < EthNeeded(cs)
  {
    OutFor(cs[i], Scaled(cs, ethInput, i))
  }

  /** q set tokens need no more of any component than what is bought of it. */
  ghost predicate Affordable(cs: seq<Component>, ethInput: nat, q: int, n: nat)
    requires n <= |cs| && 0 < EthNeeded(cs)
  {
    q <= MAX_UINT_256 && forall i :: 0 <= i < n ==> q * cs[i].unit <= Bought(cs, ethInput, i) * PRECISE_UNIT
  }

  ghost predicate GreatestAffordable(cs: seq<Component>, ethInput: nat, best: int, n: nat)
    requires n <= |cs| && 0 < EthNeeded(cs)
  {
    Affordable(cs, ethInput, best, n) && forall q :: Affordable(cs, ethInput, q, n) ==> q <= best
  }

  /**
   The most that can be issued. The call throws when there is something to divide by zero: nothing to pay for any
   component, or a component of zero units; without components the answer is the largest 256-bit integer.
   */
  method IssueSetForExactETH(cs: seq<Component>, ethInput: nat) returns (r: Option<int>)
    ensures r.None? <==> cs != [] && (EthNeeded(cs) == 0 || exists i :: 0 <= i < |cs| && cs[i].unit == 0)
    ensures cs == [] ==> r == Some(MAX_UINT_256)
    ensures r.Some? && cs != [] ==> GreatestAffordable(cs, ethInput, r.value, |cs|)
  {
    var amounts, sumEth := PriceComponents(cs);
    var expected := MAX_UINT_256;
    for i := 0 to |cs|
      invariant i > 0 ==> sumEth > 0
      invariant forall j :: 0 <= j < i ==> cs[j].unit != 0
      invariant i == 0 ==> expected == MAX_UINT_256
      invariant i > 0 ==> GreatestAffordable(cs, ethInput, expected, i)
    {
      if sumEth == 0 || cs[i].unit == 0 { return None; }
      var scaled := TruncDiv(amounts[i] * ethInput, sumEth);
      assert scaled == Scaled(cs, ethInput, i);
      var potential := TruncDiv(OutFor(cs[i], scaled) * PRECISE_UNIT, cs[i].unit);
      TakeMinimum(cs, ethInput, expected, potential, i);
      if potential < expected {
        expected := potential;
      }
    }
    return Some(expected);
  }

  /** What one set token's worth of each component costs, and all of them together. */
  method PriceComponents(cs: seq<Component>) returns (amounts: seq<nat>, sumEth: nat)
    ensures |amounts| == |cs| && forall j :: 0 <= j < |cs| ==> amounts[j] == EthFor(cs[j])
    ensures sumEth == EthNeeded(cs)
  {
    sumEth := 0;
    amounts := [];
    for i := 0 to |cs|
      invariant |amounts| == i && forall j :: 0 <= j < i ==> amounts[j] == EthFor(cs[j])
      invariant sumEth == EthNeeded(cs[..i])
    {
      assert cs[..i + 1][..i] == cs[..i];
      amounts := amounts + [EthFor(cs[i])];
      sumEth := sumEth + EthFor(cs[i]);
    }
    assert cs[..|cs|] == cs;
  }

  /** One more component: the greatest affordable quantity is the lesser of the old one and what this one allows. */
  lemma TakeMinimum(cs: seq<Component>, ethInput: nat, expected: int, potential: int, i: nat)
    requires i < |cs| && 0 < EthNeeded(cs) && 0 < cs[i].unit
    requires potential == TruncDiv(Bought(cs, ethInput, i) * PRECISE_UNIT, cs[i].unit)
    requires i == 0 ==> expected == MAX_UINT_256
    requires i > 0 ==> GreatestAffordable(cs, ethInput, expected, i)
    ensures GreatestAffordable(cs, ethInput, if potential < expected then potential else expected, i + 1)
  {
    var out, unit := Bought(cs, ethInput, i) * PRECISE_UNIT, cs[i].unit;
    TruncIsFloor(out, unit);
    var best := if potential < expected then potential else expected;
    forall j | 0 <= j <= i ensures best * cs[j].unit <= Bought(cs, ethInput, j) * PRECISE_UNIT {
      if j < i {
        Mono(best, expected, cs[j].unit);
      } else {
        Mono(best, potential, unit);
      }
    }
    var n := i + 1;
    forall q | Affordable(cs, ethInput, q, n) ensures q <= best {
      assert Affordable(cs, ethInput, q, i);
      Distribute(potential, 1, unit);
      CancelStrict(q, potential + 1, unit);
    }
  }

  // ----- allocation

  function AllocatedUpTo(cs: seq<Component>, ethInput: nat, n: nat): (r: nat)
    requires n <= |cs| && 0 < EthNeeded(cs)
  {
    if n == 0 then 0 else AllocatedUpTo(cs, ethInput, n - 1) + Scaled(cs, ethInput, n - 1)
  }

  lemma {:induction false} AllocationBracket(cs: seq<Component>, ethInput: nat, n: nat)
    requires n <= |cs| && 0 < EthNeeded(cs)
    ensures var need := EthNeeded(cs[..n]) * ethInput;
            var all := AllocatedUpTo(cs, ethInput, n) * EthNeeded(cs);
            && all <= need <= all + n * EthNeeded(cs)
            && (n > 0 ==> need < all + n * EthNeeded(cs))
  {
    if n == 0 {
      assert cs[..0] == [];
    } else {
      AllocationBracket(cs, ethInput, n - 1);
      assert cs[..n][..n - 1] == cs[..n - 1];
      var total, eth := EthNeeded(cs), EthFor(cs[n - 1]);
      NonNegative(eth, ethInput);
      TruncIsFloor(eth * ethInput, total);
      Distribute(EthNeeded(cs[..n - 1]), eth, ethInput);
      Distribute(AllocatedUpTo(cs, ethInput, n - 1), Scaled(cs, ethInput, n - 1), total);
      Distribute(n - 1, 1, total);
    }
  }

  /** The shares never exceed the input, and together leave fewer units of it unspent than there are components. */
  lemma AllocationsExhaustInput(cs: seq<Component>, ethInput: nat)
    requires 0 < EthNeeded(cs)
    ensures AllocatedUpTo(cs, ethInput, |cs|) <= ethInput < AllocatedUpTo(cs, ethInput, |cs|) + |cs|
  {
    AllocationBracket(cs, ethInput, |cs|);
    assert cs[..|cs|] == cs;
    DivideOut(EthNeeded(cs), AllocatedUpTo(cs, ethInput, |cs|), ethInput, |cs|);
  }

  lemma DivideOut(total: int, all: int, input: int, n: int)
    requires 0 < total && all * total <= total * input < all * total + n * total
    ensures all <= input < all + n
  {
    Cancel(all, input, total);
    Distribute(all, n, total);
    CancelStrict(input, all + n, total);
  }
}
