/** Recentring a leveraged position, sizing the trades that do it, and how far it may delever. */
module FlexibleLeverage {
  import opened Wrappers
  import opened Products
  import opened FixedPoint
  import opened Rounding

  /** The methodology settings, as the strategy validates them before accepting them. */
  datatype Methodology = Methodology(target: int, min: int, max: int, speed: int) {
    predicate Valid() {
      0 < min <= target <= max && 0 < speed <= PRECISE_UNIT
    }
  }

  function NewLeverageRatio(current: int, m: Methodology): (r: int)
  {
    var a := PreciseMul(m.target, m.speed);
    var b := PreciseMul(PRECISE_UNIT - m.speed, current);
    var c := a + b;
    var d := if c < m.max then c else m.max;
    if m.min >= d then m.min else d
  }

  /** The ratio after n recentrings with nothing else moving it. */
  function Recentred(current: int, m: Methodology, n: nat): (r: int)
  {
    if n == 0 then current else NewLeverageRatio(Recentred(current, m, n - 1), m)
  }

  function Distance(ratio: int, m: Methodology): (r: int)
  {
    Abs(ratio - m.target)
  }

  /** How far outside the rounding band a ratio is, scaled by the speed; negative inside the band. */
  function Excess(ratio: int, m: Methodology): (r: int)
  {
    Distance(ratio, m) * m.speed - 2 * PRECISE_UNIT
  }

  lemma NewRatioWithinBounds(current: int, m: Methodology)
    requires m.Valid()
    ensures m.min <= NewLeverageRatio(current, m) <= m.max
  {
  }

  /** The weighted mean before clamping is within two units of the exact one; above it only for a negative ratio. */
  lemma WeightedMean(current: int, m: Methodology)
    requires m.Valid()
    ensures var c := PreciseMul(m.target, m.speed) + PreciseMul(PRECISE_UNIT - m.speed, current);
            var exact := (current - m.target) * (PRECISE_UNIT - m.speed);
            && (c - m.target) * PRECISE_UNIT < exact + PRECISE_UNIT
            && exact < (c - m.target) * PRECISE_UNIT + 2 * PRECISE_UNIT
            && (0 <= current ==> (c - m.target) * PRECISE_UNIT <= exact)
  {
    var keep := PRECISE_UNIT - m.speed;
    MulFloor(m.target, m.speed);
    if 0 <= current {
      MulFloor(keep, current);
    } else {
      MulTowardZero(keep, current);
    }
    MeanAlgebra(m.target, m.speed, current, PreciseMul(m.target, m.speed), PreciseMul(keep, current));
  }

  lemma MinusOutside(a: int, b: int)
    ensures a * -b == -(a * b)
  {
  }

  lemma MeanAlgebra(target: int, speed: int, current: int, a: int, b: int)
    requires a * PRECISE_UNIT <= target * speed < a * PRECISE_UNIT + PRECISE_UNIT
    requires var exact := (PRECISE_UNIT - speed) * current;
             if 0 <= current then b * PRECISE_UNIT <= exact < b * PRECISE_UNIT + PRECISE_UNIT
             else b * PRECISE_UNIT - PRECISE_UNIT < exact <= b * PRECISE_UNIT
    ensures var exact := (current - target) * (PRECISE_UNIT - speed);
            && (a + b - target) * PRECISE_UNIT < exact + PRECISE_UNIT
            && exact < (a + b - target) * PRECISE_UNIT + 2 * PRECISE_UNIT
            && (0 <= current ==> (a + b - target) * PRECISE_UNIT <= exact)
  {
    Distribute(current, target, PRECISE_UNIT - speed);
    Distribute(PRECISE_UNIT, speed, target);
  }

  /** A recentring's exact value, times U: the target weighted by the speed and the old ratio by the rest. */
  function ScaledMean(current: int, m: Methodology): (r: int)
  {
    m.target * m.speed + (PRECISE_UNIT - m.speed) * current
  }

  /**
   A recentring moves at its speed: where no bound stops it, the new ratio is the weighted mean rounded down by less
   than two units, or off by less than one either way for a negative ratio; at a bound it is held back by it.
   */
  lemma RecentringFollowsSpeed(current: int, m: Methodology)
    requires m.Valid()
    ensures var r := NewLeverageRatio(current, m);
            var mean := ScaledMean(current, m);
            && (0 <= current && r > m.min ==> r * PRECISE_UNIT <= mean)
            && (0 <= current && r < m.max ==> mean < r * PRECISE_UNIT + 2 * PRECISE_UNIT)
            && (current < 0 && r > m.min ==> r * PRECISE_UNIT < mean + PRECISE_UNIT)
            && (current < 0 && r < m.max ==> mean < r * PRECISE_UNIT + PRECISE_UNIT)
  {
    var keep := PRECISE_UNIT - m.speed;
    var a, b := PreciseMul(m.target, m.speed), PreciseMul(keep, current);
    MulFloor(m.target, m.speed);
    if 0 <= current {
      MulFloor(keep, current);
    } else {
      MulTowardZero(keep, current);
    }
    Distribute(a, b, PRECISE_UNIT);
    var r := NewLeverageRatio(current, m);
    if r > m.min { Mono(r, a + b, PRECISE_UNIT); }
    if r < m.max { Mono(a + b, r, PRECISE_UNIT); }
  }

  /**
   The two parts of the mean are rounded toward zero apart from each other, and their sum is held within the bounds.
   Where settings cross the bounds, the minimum wins.
   */
  lemma PartsRoundApart(current: int, m: Methodology)
    ensures m.Valid() ==>
              var r := NewLeverageRatio(current, m);
              var keep := PRECISE_UNIT - m.speed;
              var kept := if 0 <= current then keep * current / PRECISE_UNIT else -(keep * -current / PRECISE_UNIT);
              var parts := m.target * m.speed / PRECISE_UNIT + kept;
              m.min <= r <= m.max && (r > m.min ==> r <= parts) && (r < m.max ==> r >= parts)
    ensures m.max <= m.min ==> NewLeverageRatio(current, m) == m.min
  {
    if m.Valid() {
      var keep := PRECISE_UNIT - m.speed;
      MulIsQuotient(m.target, m.speed);
      MulIsQuotient(keep, Abs(current));
      MinusOutside(keep, Abs(current));
      TruncOdd(keep * Abs(current), PRECISE_UNIT);
    }
  }

  /** From within the bounds the mean is within them too, so no bound holds the ratio back by more than rounding. */
  lemma WithinBoundsFollowsMean(current: int, m: Methodology)
    requires m.Valid() && m.min <= current <= m.max
    ensures var r := NewLeverageRatio(current, m);
            r * PRECISE_UNIT <= ScaledMean(current, m) < r * PRECISE_UNIT + 2 * PRECISE_UNIT
  {
    RecentringFollowsSpeed(current, m);
    NewRatioWithinBounds(current, m);
    MeanWithinBounds(PRECISE_UNIT, m.target, m.speed, current, m.min, m.max);
  }

  lemma MeanWithinBounds(u: int, target: int, speed: int, current: int, low: int, high: int)
    requires 0 <= speed <= u && low <= target <= high && low <= current <= high
    ensures low * u <= target * speed + (u - speed) * current <= high * u
  {
    Mono(low, target, speed);
    Mono(low, current, u - speed);
    Mono(target, high, speed);
    Mono(current, high, u - speed);
    Distribute(u - speed, speed, low);
    Distribute(u - speed, speed, high);
  }

  /**
   One recentring moves the ratio to less than two units beyond the exact fraction (1 - speed) of its old
   distance; clamping to bounds that contain the target only brings it closer.
   */
  lemma DistanceContracts(current: int, m: Methodology)
    requires m.Valid()
    ensures Distance(NewLeverageRatio(current, m), m) * PRECISE_UNIT
            < Distance(current, m) * (PRECISE_UNIT - m.speed) + 2 * PRECISE_UNIT
  {
    WeightedMean(current, m);
    var c := PreciseMul(m.target, m.speed) + PreciseMul(PRECISE_UNIT - m.speed, current);
    ClampingHelps(current, m, c);
    Mono(Distance(NewLeverageRatio(current, m), m), Abs(c - m.target), PRECISE_UNIT);
    AbsoluteError(c - m.target, current - m.target, PRECISE_UNIT - m.speed, PRECISE_UNIT);
  }

  /** Clamping to bounds that contain the target brings a ratio no further from it. */
  lemma ClampingHelps(current: int, m: Methodology, c: int)
    requires m.Valid() && c == PreciseMul(m.target, m.speed) + PreciseMul(PRECISE_UNIT - m.speed, current)
    ensures Distance(NewLeverageRatio(current, m), m) <= Abs(c - m.target)
  {
  }

  lemma AbsoluteError(x: int, e: int, keep: int, u: int)
    requires 0 <= keep && 0 < u && x * u < e * keep + u && e * keep < x * u + 2 * u
    ensures Abs(x) * u < Abs(e) * keep + 2 * u
  {
    NonNegative(Abs(e), keep);
    MinusOutside(keep, e);
    MinusOutside(u, x);
  }

  /** The scaled excess shrinks by the factor (1 - speed) at every step. */
  lemma ExcessContracts(current: int, m: Methodology)
    requires m.Valid()
    ensures Excess(NewLeverageRatio(current, m), m) * PRECISE_UNIT <= Excess(current, m) * (PRECISE_UNIT - m.speed)
    ensures Excess(current, m) < 0 ==> Excess(NewLeverageRatio(current, m), m) < 0
  {
    DistanceContracts(current, m);
    ScaleContraction(PRECISE_UNIT, Distance(current, m), Distance(NewLeverageRatio(current, m), m), m.speed);
  }

  lemma ScaleContraction(u: int, d: int, d': int, speed: int)
    requires 0 < speed <= u && d' * u < d * (u - speed) + 2 * u
    ensures (d' * speed - 2 * u) * u <= (d * speed - 2 * u) * (u - speed)
    ensures d * speed - 2 * u < 0 ==> d' * speed - 2 * u < 0
  {
    var keep, before, after := u - speed, d * speed - 2 * u, d' * speed - 2 * u;
    assert after * u < before * keep by {
      MonoStrict(d' * u, d * keep + 2 * u, speed);
      Swap(d', u, speed);
      Distribute(d * keep, 2 * u, speed);
      Swap(d, keep, speed);
      Distribute(d * speed, 2 * u, keep);
      Distribute(d' * speed, 2 * u, u);
      Distribute(keep, speed, 2 * u);
    }
    if before < 0 {
      Mono(before, 0, keep);
      CancelStrict(after, 0, u);
    }
  }

  /** From the first recentring on the ratio is within its bounds. */
  lemma RecentredStaysWithin(current: int, m: Methodology, n: nat)
    requires m.Valid() && n > 0
    ensures m.min <= Recentred(current, m, n) <= m.max
  {
    NewRatioWithinBounds(Recentred(current, m, n - 1), m);
  }

  /**
   Geometric convergence: after n recentrings the scaled excess is at most (1 - speed)^n of what it was,
   written without division as Excess_n * U^n <= Excess_0 * (U - speed)^n.
   */
  lemma {:induction false} RecentringConvergesGeometrically(current: int, m: Methodology, n: nat)
    requires m.Valid()
    ensures Excess(Recentred(current, m, n), m) * Pow(PRECISE_UNIT, n)
            <= Excess(current, m) * Pow(PRECISE_UNIT - m.speed, n)
  {
    if n > 0 {
      RecentringConvergesGeometrically(current, m, n - 1);
      var before := Recentred(current, m, n - 1);
      var keep := PRECISE_UNIT - m.speed;
      ExcessContracts(before, m);
      GeometricStep(Excess(Recentred(current, m, n), m), Excess(before, m), Excess(current, m),
                    keep, Pow(PRECISE_UNIT, n - 1), Pow(keep, n - 1));
    }
  }

  lemma GeometricStep(x1: int, x0: int, x: int, keep: int, up: int, down: int)
    requires 0 <= keep && 0 < up
    requires x1 * PRECISE_UNIT <= x0 * keep && x0 * up <= x * down
    ensures x1 * (PRECISE_UNIT * up) <= x * (keep * down)
  {
    Mono(x1 * PRECISE_UNIT, x0 * keep, up);
    Mono(x0 * up, x * down, keep);
    assert x1 * PRECISE_UNIT * up == x1 * (PRECISE_UNIT * up);
    assert x0 * keep * up == x0 * up * keep;
    assert x * down * keep == x * (keep * down);
  }

  /**
   No faster and no slower than the speed: from within the bounds, n recentrings leave the exact part
   (1 - speed)^n of the signed distance to the target, short of it by at most two units for each.
   */
  lemma {:induction false} RecentringTracksDecay(current: int, m: Methodology, n: nat)
    requires m.Valid() && m.min <= current <= m.max
    ensures m.min <= Recentred(current, m, n) <= m.max
    ensures var exact := (current - m.target) * Pow(PRECISE_UNIT - m.speed, n);
            var reached := (Recentred(current, m, n) - m.target) * Pow(PRECISE_UNIT, n);
            reached <= exact <= reached + 2 * n * Pow(PRECISE_UNIT, n)
  {
    if n > 0 {
      RecentringTracksDecay(current, m, n - 1);
      var before := Recentred(current, m, n - 1);
      var keep := PRECISE_UNIT - m.speed;
      NewRatioWithinBounds(before, m);
      WithinBoundsFollowsMean(before, m);
      DistanceFollowsMean(PRECISE_UNIT, m.target, m.speed, before, NewLeverageRatio(before, m));
      DecayStep(PRECISE_UNIT, NewLeverageRatio(before, m) - m.target, before - m.target, current - m.target, keep,
                Pow(PRECISE_UNIT, n - 1), Pow(keep, n - 1), n - 1);
    }
  }

  lemma DistanceFollowsMean(u: int, target: int, speed: int, before: int, after: int)
    requires after * u <= target * speed + (u - speed) * before < after * u + 2 * u
    ensures (after - target) * u <= (before - target) * (u - speed) < (after - target) * u + 2 * u
  {
    Distribute(after, target, u);
    Distribute(before, target, u - speed);
    Distribute(u, speed, target);
  }

  lemma DecayStep(u: int, x1: int, x0: int, x: int, keep: int, up: int, down: int, n: nat)
    requires 0 <= keep <= u && 0 < up
    requires x1 * u <= x0 * keep < x1 * u + 2 * u
    requires x0 * up <= x * down <= x0 * up + 2 * n * up
    ensures x1 * (u * up) <= x * (keep * down) <= x1 * (u * up) + 2 * (n + 1) * (u * up)
  {
    var mid := x0 * keep * up;
    assert x1 * (u * up) <= mid <= x1 * (u * up) + 2 * (u * up) by {
      Mono(x1 * u, x0 * keep, up);
      Mono(x0 * keep, x1 * u + 2 * u, up);
      Distribute(x1 * u, 2 * u, up);
      Associate(x1, u, up);
      Associate(2, u, up);
    }
    assert mid <= x * (keep * down) <= mid + 2 * n * (u * up) by {
      Mono(x0 * up, x * down, keep);
      Mono(x * down, x0 * up + 2 * n * up, keep);
      Distribute(x0 * up, 2 * n * up, keep);
      Swap(x0, up, keep);
      Swap(x, down, keep);
      Associate(x, keep, down);
      LessIsKept(u, keep, up, n);
    }
    Distribute(2 * n, 2, u * up);
  }

  lemma LessIsKept(u: int, keep: int, up: int, n: nat)
    requires 0 <= keep <= u && 0 < up
    ensures 2 * n * up * keep <= 2 * n * (u * up)
  {
    NonNegative(2 * n, up);
    Mono(keep, u, 2 * n * up);
    Swap(2 * n, up, u);
    Associate(2 * n, u, up);
  }

  /** Outside the band every recentring strictly reduces the distance to the target. */
  lemma DistanceStrictlyShrinks(current: int, m: Methodology)
    requires m.Valid() && Excess(current, m) >= 0
    ensures Distance(NewLeverageRatio(current, m), m) < Distance(current, m)
  {
    DistanceContracts(current, m);
    ShrinksOutsideBand(Distance(current, m), Distance(NewLeverageRatio(current, m), m), m.speed);
  }

  lemma ShrinksOutsideBand(d: int, d': int, speed: int)
    requires d' * PRECISE_UNIT < d * (PRECISE_UNIT - speed) + 2 * PRECISE_UNIT
    requires d * speed >= 2 * PRECISE_UNIT
    ensures d' < d
  {
    assert d * (PRECISE_UNIT - speed) == d * PRECISE_UNIT - d * speed;
  }

  /** Once inside the band, for ever inside it. */
  lemma {:induction false} BandIsAbsorbing(current: int, m: Methodology, n: nat)
    requires m.Valid() && Excess(current, m) < 0
    ensures Excess(Recentred(current, m, n), m) < 0
  {
    if n > 0 {
      BandIsAbsorbing(current, m, n - 1);
      ExcessContracts(Recentred(current, m, n - 1), m);
    }
  }

  lemma {:induction false} RecentredCompose(current: int, m: Methodology, i: nat, j: nat)
    ensures Recentred(Recentred(current, m, i), m, j) == Recentred(current, m, i + j)
  {
    if j > 0 { RecentredCompose(current, m, i, j - 1); }
  }

  /** From any start the ratio is inside the band after at most as many steps as its distance, and stays there. */
  lemma {:induction false} RecentringReachesBand(current: int, m: Methodology) returns (n: nat)
    requires m.Valid()
    ensures n <= Abs(current - m.target)
    ensures forall k: nat :: n <= k ==> Abs(Recentred(current, m, k) - m.target) * m.speed < 2 * PRECISE_UNIT
    decreases Distance(current, m)
  {
    if Excess(current, m) < 0 {
      n := 0;
      forall k: nat | n <= k ensures Abs(Recentred(current, m, k) - m.target) * m.speed < 2 * PRECISE_UNIT {
        BandIsAbsorbing(current, m, k);
      }
    } else {
      DistanceStrictlyShrinks(current, m);
      var next := NewLeverageRatio(current, m);
      var n' := RecentringReachesBand(next, m);
      n := n' + 1;
      forall k: nat | n <= k ensures Abs(Recentred(current, m, k) - m.target) * m.speed < 2 * PRECISE_UNIT {
        assert Recentred(current, m, 1) == next by { assert Recentred(current, m, 0) == current; }
        RecentredCompose(current, m, 1, k - 1);
      }
    }
  }

  // ----- trade sizes

  function RatioChange(current: int, next: int): (r: int)
  {
    if current > next then current - next else next - current
  }

  function RebalanceNotionalAave(balance: int, current: int, next: int): (r: Option<int>)
  {
    if current == 0 then None
    else Some(PreciseMul(PreciseDiv(RatioChange(current, next), current), balance))
  }

  function RebalanceNotionalAaveV3(balance: int, current: int, next: int): (r: Option<int>)
  {
    if current == 0 then None
    else Some(PreciseDiv(PreciseMul(RatioChange(current, next), balance), current))
  }

  /** Both forms against the exact |n - c| * B / c: never above it, and by how much each can fall short. */
  lemma NotionalBrackets(balance: int, current: int, next: int)
    requires 0 <= balance && 0 < current && 0 <= next
    ensures var exact := Abs(next - current) * balance;
            var v3 := RebalanceNotionalAaveV3(balance, current, next).value;
            var v2 := RebalanceNotionalAave(balance, current, next).value;
            && 0 <= v3 && v3 * current <= exact < v3 * current + current + PRECISE_UNIT
            && 0 <= v2 && v2 * current <= exact
            && exact * PRECISE_UNIT < (v2 + 1) * current * PRECISE_UNIT + balance * current
  {
    var a := RatioChange(current, next);
    MulFloor(a, balance);
    DivFloor(PreciseMul(a, balance), current);
    var b := PreciseDiv(a, current);
    DivFloor(a, current);
    MulFloor(b, balance);
    OldFormBracket(PRECISE_UNIT, a, b, balance, current, PreciseMul(b, balance));
  }

  lemma OldFormBracket(u: int, a: int, b: int, balance: int, current: int, v: int)
    requires 0 < u && 0 <= balance && 0 < current && 0 <= b
    requires b * current <= a * u < b * current + current
    requires v * u <= b * balance < v * u + u
    ensures v * current <= a * balance
    ensures a * balance * u < (v + 1) * current * u + balance * current
  {
    var mid := b * balance * current;
    assert v * current * u <= mid < (v + 1) * current * u by {
      Mono(v * u, b * balance, current);
      Distribute(v, 1, u);
      MonoStrict(b * balance, (v + 1) * u, current);
      Swap(v, u, current);
      Swap(v + 1, u, current);
    }
    assert mid <= a * balance * u <= mid + balance * current by {
      Mono(b * current, a * u, balance);
      Mono(a * u, b * current + current, balance);
      Distribute(b * current, current, balance);
      Swap(b, balance, current);
      Swap(a, u, balance);
    }
    Cancel(v * current, a * balance, u);
  }

  /**
   At a leverage of one or more the V3 form is the exact floor or one less, and the older form exceeds it
   by at most one.
   */
  lemma NotionalNearExact(balance: int, current: int, next: int)
    requires 0 <= balance && PRECISE_UNIT <= current && 0 <= next
    ensures var floor := Abs(next - current) * balance / current;
            var v3 := RebalanceNotionalAaveV3(balance, current, next).value;
            var v2 := RebalanceNotionalAave(balance, current, next).value;
            floor - 1 <= v3 <= floor && v2 <= v3 + 1
  {
    NotionalBrackets(balance, current, next);
    FloorNeighbours(RatioChange(current, next) * balance, current,
                    RebalanceNotionalAaveV3(balance, current, next).value,
                    RebalanceNotionalAave(balance, current, next).value);
  }

  lemma FloorNeighbours(exact: int, d: int, v3: int, v2: int)
    requires 0 < d
    requires v3 * d <= exact < v3 * d + d + d && v2 * d <= exact
    ensures exact / d - 1 <= v3 <= exact / d && v2 <= v3 + 1
  {
    var floor := exact / d;
    assert exact == floor * d + exact % d;
    assert (floor + 1) * d == floor * d + d;
    assert (v3 + 2) * d == v3 * d + d + d;
    CancelStrict(v3, floor + 1, d);
    CancelStrict(v2, floor + 1, d);
    CancelStrict(floor, v3 + 2, d);
  }

  /**
   Each form reaches y exactly when abs(n - c) * B, or abs(n - c) * U, reaches what y takes; only a ratio of zero makes
   them throw.
   */
  lemma NotionalsExactly(balance: int, current: int, next: int, y: nat)
    requires 0 <= balance && 0 <= current && 0 <= next
    ensures var v3 := RebalanceNotionalAaveV3(balance, current, next);
            var v2 := RebalanceNotionalAave(balance, current, next);
            var change := Abs(next - current);
            && (v3.None? <==> current == 0) && (v2.None? <==> current == 0)
            && (0 < current ==> (y <= v3.value <==> NeededToDivide(y, current) * PRECISE_UNIT <= change * balance))
            && (0 < current && 0 < balance ==>
                  (y <= v2.value <==> Needed(y, balance) * current <= change * PRECISE_UNIT))
  {
    if 0 < current {
      ScaleThenDivideReaches(RatioChange(current, next), balance, current, y);
      if 0 < balance { DivideThenScaleReaches(RatioChange(current, next), current, balance, y); }
    }
  }

  /** After the V3 trade the collateral is within two units of B * n / c, levering or delevering. */
  lemma CollateralLandsOnTarget(balance: int, current: int, next: int)
    requires 0 <= balance && PRECISE_UNIT <= current && 0 <= next
    ensures var v3 := RebalanceNotionalAaveV3(balance, current, next).value;
            var after := if next >= current then balance + v3 else balance - v3;
            && 0 <= after
            && (next >= current ==> after * current <= balance * next < (after + 2) * current)
            && (next < current ==> (after - 2) * current < balance * next <= after * current)
  {
    NotionalBrackets(balance, current, next);
    var v3 := RebalanceNotionalAaveV3(balance, current, next).value;
    if next >= current {
      LandsAfterLever(balance, current, next - current, v3);
    } else {
      LandsAfterDelever(balance, current, current - next, v3);
    }
  }

  lemma LandsAfterLever(balance: int, current: int, a: int, v: int)
    requires v * current <= a * balance < v * current + current + current
    ensures (balance + v) * current <= balance * (current + a) < (balance + v + 2) * current
  {
    Distribute(balance, v, current);
    Distribute(balance + v, 2, current);
    Distribute(current, a, balance);
  }

  lemma LandsAfterDelever(balance: int, current: int, a: int, v: int)
    requires 0 < current && 0 <= balance && a <= current
    requires v * current <= a * balance < v * current + current + current
    ensures (balance - v - 2) * current < balance * (current - a) <= (balance - v) * current && v <= balance
  {
    Distribute(balance, v, current);
    Distribute(balance - v, 2, current);
    Distribute(current, a, balance);
    Mono(a, current, balance);
    Cancel(v, balance, current);
  }

  // ----- delevering

  /** The debt a collateral balance supports, rounded down at each of its three steps. */
  function NetBorrowLimit(balance: int, price: int, factor: int, unutilized: int): (r: int)
  {
    PreciseMul(PreciseMul(PreciseMul(balance, price), factor), PRECISE_UNIT - unutilized)
  }

  function MaxBorrowForDelever(
    balance: int, factor: int, unutilized: int, price: int, borrowPrice: int, borrowBalance: int): (r: Option<int>)
  {
    var debt := PreciseMul(borrowBalance, borrowPrice);
    var limit := NetBorrowLimit(balance, price, factor, unutilized);
    if limit == 0 then None
    else Some(PreciseDiv(PreciseMul(balance, limit - debt), limit))
  }

  function NetBorrowLimitV3(balance: int, price: int, factor: int): (r: int)
  {
    PreciseMul(PreciseMul(balance, price), factor)
  }

  function MaxBorrowForDeleverV3(balance: int, factor: int, price: int, borrowPrice: int, borrowBalance: int)
    : (r: Option<int>)
  {
    var debt := PreciseMul(borrowBalance, borrowPrice);
    var limit := NetBorrowLimitV3(balance, price, factor);
    if limit == 0 then None
    else Some(PreciseDiv(PreciseMul(balance, limit - debt), limit))
  }

  /** What may be withdrawn under a limit: never more than the balance, never below the debt's share of it. */
  lemma WithdrawalKeepsShare(balance: int, limit: int, debt: int)
    requires 0 <= balance && 0 <= debt <= limit && 0 < limit
    ensures var r := PreciseDiv(PreciseMul(balance, limit - debt), limit);
            && 0 <= r <= balance
            && (balance - r) * limit >= balance * debt
            && (balance - r) * limit < balance * debt + limit + PRECISE_UNIT
  {
    var a := PreciseMul(balance, limit - debt);
    MulFloor(balance, limit - debt);
    DivFloor(a, limit);
    var r := PreciseDiv(a, limit);
    ShareAlgebra(PRECISE_UNIT, balance, limit, debt, a, r);
  }

  lemma ShareAlgebra(u: int, balance: int, limit: int, debt: int, a: int, r: int)
    requires 0 < u && 0 < limit && 0 <= balance && 0 <= debt
    requires a * u <= balance * (limit - debt) < a * u + u
    requires r * limit <= a * u < r * limit + limit
    ensures r <= balance && balance * debt <= (balance - r) * limit < balance * debt + limit + u
  {
    Distribute(limit, debt, balance);
    Distribute(balance, r, limit);
    NonNegative(balance, debt);
    Cancel(r, balance, limit);
  }

  /** One flooring step keeps a proportion up to one more unit of loss. */
  lemma FloorKeepsProportion(whole: int, part: int, x: int, y: int, f: int, loss: nat)
    requires 0 <= part <= whole && 0 < whole && 0 <= x && 0 <= y && 0 <= f
    requires loss == 0 || f <= PRECISE_UNIT
    requires whole * x >= part * y - loss * whole
    ensures whole * PreciseMul(x, f) > part * PreciseMul(y, f) - (loss + 1) * whole
  {
    MulFloor(x, f);
    MulFloor(y, f);
    ProportionAlgebra(whole, part, x, y, f, loss, PreciseMul(x, f), PreciseMul(y, f));
  }

  lemma ProportionAlgebra(whole: int, part: int, x: int, y: int, f: int, loss: nat, x': int, y': int)
    requires 0 <= part && 0 < whole && 0 <= f
    requires loss == 0 || f <= PRECISE_UNIT
    requires whole * x >= part * y - loss * whole
    requires x * f < x' * PRECISE_UNIT + PRECISE_UNIT && y' * PRECISE_UNIT <= y * f
    ensures whole * x' > part * y' - (loss + 1) * whole
  {
    var lost := loss * whole;
    NonNegative(loss, whole);
    assert whole * x * f >= part * y * f - lost * f by {
      Mono(part * y - lost, whole * x, f);
      Distribute(part * y, lost, f);
    }
    assert whole * x * f < x' * whole * PRECISE_UNIT + whole * PRECISE_UNIT by {
      MonoStrict(x * f, x' * PRECISE_UNIT + PRECISE_UNIT, whole);
      Associate(whole, x, f);
      Distribute(x' * PRECISE_UNIT, PRECISE_UNIT, whole);
      Swap(x', PRECISE_UNIT, whole);
    }
    assert part * y * f >= y' * part * PRECISE_UNIT by {
      Mono(y' * PRECISE_UNIT, y * f, part);
      Swap(y', PRECISE_UNIT, part);
      Associate(part, y, f);
    }
    assert lost * f <= lost * PRECISE_UNIT by {
      if loss == 0 { assert lost == 0; } else { Mono(f, PRECISE_UNIT, lost); }
    }
    Distribute(loss, 1, whole);
  }

  /**
   After withdrawing the maximum for a delever, the remaining share of the old limit covers the debt. The limit
   recomputed on what is left, through the same three floors, may fall short of it, by at most two units.
   */
  lemma DeleverShortfallAtMostTwo(
    balance: int, factor: int, unutilized: int, price: int, borrowPrice: int, borrowBalance: int)
    requires 0 <= balance && 0 <= price && 0 <= borrowPrice && 0 <= borrowBalance
    requires 0 <= factor <= PRECISE_UNIT && 0 <= unutilized <= PRECISE_UNIT
    requires var debt := PreciseMul(borrowBalance, borrowPrice);
             var limit := NetBorrowLimit(balance, price, factor, unutilized);
             0 < limit && debt <= limit
    ensures var debt := PreciseMul(borrowBalance, borrowPrice);
            var limit := NetBorrowLimit(balance, price, factor, unutilized);
            var r := MaxBorrowForDelever(balance, factor, unutilized, price, borrowPrice, borrowBalance);
            && r.Some? && 0 <= r.value <= balance
            && balance * debt <= (balance - r.value) * limit < balance * debt + limit + PRECISE_UNIT
            && NetBorrowLimit(balance - r.value, price, factor, unutilized) >= debt - 2
  {
    var debt := PreciseMul(borrowBalance, borrowPrice);
    MulFloor(borrowBalance, borrowPrice);
    var limit := NetBorrowLimit(balance, price, factor, unutilized);
    WithdrawalKeepsShare(balance, limit, debt);
    var left := balance - MaxBorrowForDelever(balance, factor, unutilized, price, borrowPrice, borrowBalance).value;
    NoCollateralNoLimit(price, factor, unutilized);
    LimitKeepsProportion(balance, left, price, factor, unutilized);
    var limit' := NetBorrowLimit(left, price, factor, unutilized);
    ShareBound(balance, left, limit, limit', debt, 3);
  }

  /** An empty balance supports no debt, so a positive limit means a positive balance. */
  lemma NoCollateralNoLimit(price: int, factor: int, unutilized: int)
    ensures NetBorrowLimit(0, price, factor, unutilized) == 0
    ensures NetBorrowLimitV3(0, price, factor) == 0
  {
    NothingScaled(price);
    NothingScaled(factor);
    NothingScaled(PRECISE_UNIT - unutilized);
  }

  lemma NothingScaled(b: int)
    ensures PreciseMul(0, b) == 0
  {
    TruncIsFloor(0, PRECISE_UNIT);
    ZeroFloor(TruncDiv(0, PRECISE_UNIT), PRECISE_UNIT);
  }

  lemma LimitKeepsProportion(balance: int, left: int, price: int, factor: int, unutilized: int)
    requires 0 <= left <= balance && 0 < balance && 0 <= price
    requires 0 <= factor <= PRECISE_UNIT && 0 <= unutilized <= PRECISE_UNIT
    ensures balance * NetBorrowLimit(left, price, factor, unutilized)
            > left * NetBorrowLimit(balance, price, factor, unutilized) - 3 * balance
  {
    LimitV3KeepsProportion(balance, left, price, factor);
    var x, y := NetBorrowLimitV3(left, price, factor), NetBorrowLimitV3(balance, price, factor);
    FloorKeepsProportion(balance, left, x, y, PRECISE_UNIT - unutilized, 2);
  }

  lemma LimitV3KeepsProportion(balance: int, left: int, price: int, factor: int)
    requires 0 <= left <= balance && 0 < balance && 0 <= price && 0 <= factor <= PRECISE_UNIT
    ensures 0 <= NetBorrowLimitV3(left, price, factor) && 0 <= NetBorrowLimitV3(balance, price, factor)
    ensures balance * NetBorrowLimitV3(left, price, factor)
            > left * NetBorrowLimitV3(balance, price, factor) - 2 * balance
  {
    MulFloor(left, price);
    MulFloor(balance, price);
    FloorKeepsProportion(balance, left, left, balance, price, 0);
    var x, y := PreciseMul(left, price), PreciseMul(balance, price);
    MulFloor(x, factor);
    MulFloor(y, factor);
    FloorKeepsProportion(balance, left, x, y, factor, 1);
  }

  lemma ShareBound(balance: int, left: int, limit: int, limit': int, debt: int, loss: int)
    requires 0 < balance && left * limit >= balance * debt
    requires balance * limit' > left * limit - loss * balance
    ensures limit' > debt - loss
  {
    assert balance * (debt - loss) == balance * debt - loss * balance;
    CancelStrict(debt - loss, limit', balance);
  }

  /** The V3 limit has one rounding step fewer, and the bound tightens with it. */
  lemma DeleverV3ShortfallAtMostOne(balance: int, factor: int, price: int, borrowPrice: int, borrowBalance: int)
    requires 0 <= balance && 0 <= price && 0 <= borrowPrice && 0 <= borrowBalance && 0 <= factor <= PRECISE_UNIT
    requires var debt := PreciseMul(borrowBalance, borrowPrice);
             var limit := NetBorrowLimitV3(balance, price, factor);
             0 < limit && debt <= limit
    ensures var debt := PreciseMul(borrowBalance, borrowPrice);
            var limit := NetBorrowLimitV3(balance, price, factor);
            var r := MaxBorrowForDeleverV3(balance, factor, price, borrowPrice, borrowBalance);
            && r.Some? && 0 <= r.value <= balance
            && balance * debt <= (balance - r.value) * limit < balance * debt + limit + PRECISE_UNIT
            && NetBorrowLimitV3(balance - r.value, price, factor) >= debt - 1
  {
    var debt := PreciseMul(borrowBalance, borrowPrice);
    MulFloor(borrowBalance, borrowPrice);
    var limit := NetBorrowLimitV3(balance, price, factor);
    WithdrawalKeepsShare(balance, limit, debt);
    var left := balance - MaxBorrowForDeleverV3(balance, factor, price, borrowPrice, borrowBalance).value;
    NoCollateralNoLimit(price, factor, 0);
    LimitV3KeepsProportion(balance, left, price, factor);
    ShareBound(balance, left, limit, NetBorrowLimitV3(left, price, factor), debt, 2);
  }

  /**
   The withdrawal reaches y exactly when the balance, times what the limit leaves above the debt, reaches what y
   takes; and the helpers throw exactly when that limit is zero.
   */
  lemma DeleverExactly(
    balance: int, factor: int, unutilized: int, price: int, borrowPrice: int, borrowBalance: int, y: nat)
    requires 0 <= balance
    ensures var debt := PreciseMul(borrowBalance, borrowPrice);
            var limit := NetBorrowLimit(balance, price, factor, unutilized);
            var r := MaxBorrowForDelever(balance, factor, unutilized, price, borrowPrice, borrowBalance);
            && (r.None? <==> limit == 0)
            && (0 < limit && debt <= limit ==>
                  (y <= r.value <==> NeededToDivide(y, limit) * PRECISE_UNIT <= balance * (limit - debt)))
    ensures var debt := PreciseMul(borrowBalance, borrowPrice);
            var limit := NetBorrowLimitV3(balance, price, factor);
            var r := MaxBorrowForDeleverV3(balance, factor, price, borrowPrice, borrowBalance);
            && (r.None? <==> limit == 0)
            && (0 < limit && debt <= limit ==>
                  (y <= r.value <==> NeededToDivide(y, limit) * PRECISE_UNIT <= balance * (limit - debt)))
  {
    var debt := PreciseMul(borrowBalance, borrowPrice);
    var limit, limitV3 := NetBorrowLimit(balance, price, factor, unutilized), NetBorrowLimitV3(balance, price, factor);
    if 0 < limit && debt <= limit { ScaleThenDivideReaches(balance, limit - debt, limit, y); }
    if 0 < limitV3 && debt <= limitV3 { ScaleThenDivideReaches(balance, limitV3 - debt, limitV3, y); }
  }

  // ----- when the recomputed limit still covers the debt

  /** The least collateral balance whose V3 limit covers a debt. */
  function BalanceNeededV3(debt: nat, price: int, factor: int): (r: nat)
    requires 0 < price && 0 < factor
  {
    Needed(Needed(debt, factor), price)
  }

  /** The least collateral balance whose limit covers a debt. */
  function BalanceNeeded(debt: nat, price: int, factor: int, unutilized: int): (r: nat)
    requires 0 < price && 0 < factor && unutilized < PRECISE_UNIT
  {
    BalanceNeededV3(Needed(debt, PRECISE_UNIT - unutilized), price, factor)
  }

  lemma LimitV3Covers(balance: int, price: int, factor: int, debt: nat)
    requires 0 <= balance && 0 < price && 0 < factor
    ensures 0 <= NetBorrowLimitV3(balance, price, factor)
    ensures debt <= NetBorrowLimitV3(balance, price, factor) <==> BalanceNeededV3(debt, price, factor) <= balance
  {
    var value := PreciseMul(balance, price);
    MulFloor(balance, price);
    MulFloor(value, factor);
    ScalingReaches(value, factor, debt);
    ScalingReaches(balance, price, Needed(debt, factor));
  }

  lemma LimitCovers(balance: int, price: int, factor: int, unutilized: int, debt: nat)
    requires 0 <= balance && 0 < price && 0 < factor && unutilized < PRECISE_UNIT
    ensures debt <= NetBorrowLimit(balance, price, factor, unutilized)
            <==> BalanceNeeded(debt, price, factor, unutilized) <= balance
  {
    var keep := PRECISE_UNIT - unutilized;
    LimitV3Covers(balance, price, factor, Needed(debt, keep));
    ScalingReaches(NetBorrowLimitV3(balance, price, factor), keep, debt);
  }

  /** The quotient of the dividend by the limit, rounded toward zero, does not exceed `spare`. */
  predicate LeavesRoom(dividend: int, limit: int, spare: int)
  {
    if dividend >= 0 then dividend * PRECISE_UNIT < (spare + 1) * limit else dividend * PRECISE_UNIT <= spare * limit
  }

  /** What is left after the withdrawal, or after the deposit that a debt above the limit asks for. */
  lemma WithdrawalLeaves(balance: int, limit: int, debt: int, needed: int)
    requires 0 <= balance && 0 <= debt && 0 < limit
    ensures var a := PreciseMul(balance, limit - debt);
            && (debt > limit ==> a <= 0 && PreciseDiv(a, limit) <= 0)
            && (needed <= balance - PreciseDiv(a, limit) <==> LeavesRoom(a, limit, balance - needed))
  {
    var a := PreciseMul(balance, limit - debt);
    if debt > limit {
      MulFloor(balance, debt - limit);
      NegateFactor(balance, debt - limit);
      TruncOdd(balance * (debt - limit), PRECISE_UNIT);
    } else {
      MulFloor(balance, limit - debt);
    }
    QuotientLeaves(a, limit, balance - needed);
  }

  lemma NegateFactor(a: int, b: int)
    ensures a * -b == -(a * b)
  {
  }

  lemma QuotientLeaves(a: int, limit: int, spare: int)
    requires 0 < limit
    ensures PreciseDiv(a, limit) <= spare <==> LeavesRoom(a, limit, spare)
    ensures a <= 0 ==> PreciseDiv(a, limit) <= 0
  {
    DivFloor(Abs(a), limit);
    if a >= 0 {
      FloorAtMost(a * PRECISE_UNIT, limit, PreciseDiv(a, limit), spare);
      if a == 0 { ZeroFloor(PreciseDiv(0, limit), limit); }
    } else {
      TruncOdd(-a * PRECISE_UNIT, limit);
      Distribute(0, a, PRECISE_UNIT);
      Distribute(0, spare, limit);
      FloorAtMost(-a * PRECISE_UNIT, limit, PreciseDiv(-a, limit), -spare - 1);
    }
  }

  lemma FloorAtMost(n: int, d: int, q: int, k: int)
    requires 0 < d && q * d <= n < q * d + d
    ensures q <= k <==> n < (k + 1) * d
  {
    Distribute(q, 1, d);
    if q <= k { Mono(q + 1, k + 1, d); } else { Mono(k + 1, q, d); }
  }

  /** A positive limit has positive factors. */
  lemma PositiveLimitV3(balance: int, price: int, factor: int)
    requires 0 <= balance && 0 <= price && 0 <= factor && 0 < NetBorrowLimitV3(balance, price, factor)
    ensures 0 < price && 0 < factor
  {
    if price == 0 { ScaledByNothing(balance); NothingScaled(factor); }
    if factor == 0 { ScaledByNothing(PreciseMul(balance, price)); }
  }

  lemma PositiveLimit(balance: int, price: int, factor: int, unutilized: int)
    requires 0 <= balance && 0 <= price && 0 <= factor && unutilized <= PRECISE_UNIT
    requires 0 < NetBorrowLimit(balance, price, factor, unutilized)
    ensures 0 < price && 0 < factor && unutilized < PRECISE_UNIT
  {
    var v3 := NetBorrowLimitV3(balance, price, factor);
    MulFloor(balance, price);
    MulFloor(PreciseMul(balance, price), factor);
    if v3 == 0 { NothingScaled(PRECISE_UNIT - unutilized); }
    if unutilized == PRECISE_UNIT { ScaledByNothing(v3); }
    PositiveLimitV3(balance, price, factor);
  }

  lemma ScaledByNothing(a: int)
    ensures PreciseMul(a, 0) == 0
  {
    NothingScaled(a);
    assert a * 0 == 0 * a;
  }

  /**
   Exactly when a maximum delever keeps the recomputed limit at or above the debt, in terms of what is known before
   the withdrawal: the rounded dividend must stay below (K + 1) * limit, where K is what the balance has to spare
   over the least balance whose limit covers the debt. For a debt above the limit the withdrawal and K are negative,
   and the dividend must not exceed K * limit.
   */
  lemma DeleverCoversDebtExactly(
    balance: int, factor: int, unutilized: int, price: int, borrowPrice: int, borrowBalance: int)
    requires 0 <= balance && 0 <= price && 0 <= borrowPrice && 0 <= borrowBalance
    requires 0 <= factor <= PRECISE_UNIT && 0 <= unutilized <= PRECISE_UNIT
    requires 0 < NetBorrowLimit(balance, price, factor, unutilized)
    ensures 0 < price && 0 < factor && unutilized < PRECISE_UNIT && 0 <= PreciseMul(borrowBalance, borrowPrice)
    ensures MaxBorrowForDelever(balance, factor, unutilized, price, borrowPrice, borrowBalance).Some?
    ensures var debt := PreciseMul(borrowBalance, borrowPrice);
            var limit := NetBorrowLimit(balance, price, factor, unutilized);
            var r := MaxBorrowForDelever(balance, factor, unutilized, price, borrowPrice, borrowBalance).value;
            var k := balance - BalanceNeeded(debt, price, factor, unutilized);
            debt <= NetBorrowLimit(balance - r, price, factor, unutilized)
            <==> LeavesRoom(PreciseMul(balance, limit - debt), limit, k)
  {
    var debt := PreciseMul(borrowBalance, borrowPrice);
    MulFloor(borrowBalance, borrowPrice);
    var limit := NetBorrowLimit(balance, price, factor, unutilized);
    PositiveLimit(balance, price, factor, unutilized);
    if debt <= limit { WithdrawalKeepsShare(balance, limit, debt); }
    var r := MaxBorrowForDelever(balance, factor, unutilized, price, borrowPrice, borrowBalance).value;
    WithdrawalLeaves(balance, limit, debt, BalanceNeeded(debt, price, factor, unutilized));
    LimitCovers(balance - r, price, factor, unutilized, debt);
  }

  lemma DeleverV3CoversDebtExactly(balance: int, factor: int, price: int, borrowPrice: int, borrowBalance: int)
    requires 0 <= balance && 0 <= price && 0 <= borrowPrice && 0 <= borrowBalance && 0 <= factor <= PRECISE_UNIT
    requires 0 < NetBorrowLimitV3(balance, price, factor)
    ensures 0 < price && 0 < factor && 0 <= PreciseMul(borrowBalance, borrowPrice)
    ensures MaxBorrowForDeleverV3(balance, factor, price, borrowPrice, borrowBalance).Some?
    ensures var debt := PreciseMul(borrowBalance, borrowPrice);
            var limit := NetBorrowLimitV3(balance, price, factor);
            var r := MaxBorrowForDeleverV3(balance, factor, price, borrowPrice, borrowBalance).value;
            var k := balance - BalanceNeededV3(debt, price, factor);
            debt <= NetBorrowLimitV3(balance - r, price, factor)
            <==> LeavesRoom(PreciseMul(balance, limit - debt), limit, k)
  {
    var debt := PreciseMul(borrowBalance, borrowPrice);
    MulFloor(borrowBalance, borrowPrice);
    var limit := NetBorrowLimitV3(balance, price, factor);
    PositiveLimitV3(balance, price, factor);
    if debt <= limit { WithdrawalKeepsShare(balance, limit, debt); }
    var r := MaxBorrowForDeleverV3(balance, factor, price, borrowPrice, borrowBalance).value;
    WithdrawalLeaves(balance, limit, debt, BalanceNeededV3(debt, price, factor));
    LimitV3Covers(balance - r, price, factor, debt);
  }

  // ----- inputs at which it does not

  lemma LimitIs(balance: int, price: int, factor: int, unutilized: int, value: int, v3: int, limit: int)
    requires 0 <= balance && 0 <= price && 0 <= factor && 0 <= value && 0 <= v3 && unutilized <= PRECISE_UNIT
    requires value * PRECISE_UNIT <= balance * price < value * PRECISE_UNIT + PRECISE_UNIT
    requires v3 * PRECISE_UNIT <= value * factor < v3 * PRECISE_UNIT + PRECISE_UNIT
    requires limit * PRECISE_UNIT <= v3 * (PRECISE_UNIT - unutilized) < limit * PRECISE_UNIT + PRECISE_UNIT
    ensures NetBorrowLimitV3(balance, price, factor) == v3
    ensures NetBorrowLimit(balance, price, factor, unutilized) == limit
  {
    MulIs(balance, price, value);
    MulIs(value, factor, v3);
    MulIs(v3, PRECISE_UNIT - unutilized, limit);
  }

  /**
   The shortfall of two is reached, at every unit of a hundred or more: a balance of one whole unit at price 7, a factor
   of 6/7 and a usable share of 5/6, both rounded up, and a debt of 2 against a limit of 5. The limit recomputed after
   the withdrawal is 0.
   */
  lemma DeleverFallsTwoShort() returns (factor: int, unutilized: int)
    requires 100 <= PRECISE_UNIT
    ensures 0 <= factor <= PRECISE_UNIT && 0 <= unutilized <= PRECISE_UNIT
    ensures PreciseMul(2, PRECISE_UNIT) == 2 && NetBorrowLimit(PRECISE_UNIT, 7, factor, unutilized) == 5
    ensures var r := MaxBorrowForDelever(PRECISE_UNIT, factor, unutilized, 7, PRECISE_UNIT, 2);
            r.Some? && NetBorrowLimit(PRECISE_UNIT - r.value, 7, factor, unutilized) == 0
  {
    var u := PRECISE_UNIT;
    factor := CeilDiv(6 * u, 7);
    var keep := CeilDiv(5 * u, 6);
    unutilized := u - keep;
    var r := 3 * u / 5;
    MulIs(2, u, 2);
    MulIs(u, 3, 3);
    DivIs(3, 5, r);
    LimitIs(u, 7, factor, unutilized, 7, 6, 5);
    LimitIs(u - r, 7, factor, unutilized, 2, 1, 0);
  }

  /** The V3 shortfall of one: price 3, a factor of 2/3 rounded up, and a debt of 1 against a limit of 2. */
  lemma DeleverV3FallsOneShort() returns (factor: int)
    requires 100 <= PRECISE_UNIT
    ensures 0 <= factor <= PRECISE_UNIT
    ensures PreciseMul(1, PRECISE_UNIT) == 1 && NetBorrowLimitV3(PRECISE_UNIT, 3, factor) == 2
    ensures var r := MaxBorrowForDeleverV3(PRECISE_UNIT, factor, 3, PRECISE_UNIT, 1);
            r.Some? && NetBorrowLimitV3(PRECISE_UNIT - r.value, 3, factor) == 0
  {
    var u := PRECISE_UNIT;
    factor := CeilDiv(2 * u, 3);
    var r := u / 2;
    MulIs(1, u, 1);
    DivIs(1, 2, r);
    LimitIs(u, 3, factor, 0, 3, 2, 2);
    LimitIs(u - r, 3, factor, 0, 1, 0, 0);
  }
}
