/** What the rounding helpers are meant to compute, stated without reference to how they do it. */
module Rounding {
  import opened Products
  import opened FixedPoint

  /** q is the floor of the rational n / d. */
  ghost predicate IsFloor(q: int, n: int, d: int)
    requires d != 0
  {
    if d > 0 then q * d <= n < q * d + d else q * d + d < n <= q * d
  }

  /** q is n / d rounded away from zero: the right sign, and the smallest magnitude that covers n. */
  ghost predicate IsAwayFromZero(q: int, n: int, d: int)
    requires d != 0
  {
    && Abs(n) <= Abs(q) * Abs(d) < Abs(n) + Abs(d)
    && (q != 0 ==> ((q < 0) <==> ((n < 0) != (d < 0))))
  }

  /** The smallest natural number whose product with d reaches n. */
  function CeilDiv(n: nat, d: int): (q: nat)
    requires 0 < d
    ensures n <= q * d < n + d
  {
    assert n == (n / d) * d + n % d;
    if n % d == 0 then n / d else
      assert (n / d + 1) * d == (n / d) * d + d;
      n / d + 1
  }

  lemma CeilUnique(q: nat, n: nat, d: int)
    requires 0 < d && n <= q * d < n + d
    ensures q == CeilDiv(n, d)
  {
    var c := CeilDiv(n, d);
    if q < c {
      Mono(q + 1, c, d);
    } else if c < q {
      Mono(c + 1, q, d);
    }
  }

  // ----- the shared helpers on every pair of signs

  /** q is the ceiling of the rational n / d. */
  ghost predicate IsCeil(q: int, n: int, d: int)
    requires d != 0
  {
    IsFloor(-q, -n, d)
  }

  /** q is n / d truncated: the right sign, and the largest magnitude that does not exceed it. */
  ghost predicate IsTruncated(q: int, n: int, d: int)
    requires d != 0
  {
    && Abs(q) * Abs(d) <= Abs(n) < Abs(q) * Abs(d) + Abs(d)
    && (q != 0 ==> ((q < 0) <==> ((n < 0) != (d < 0))))
  }

  lemma TruncTruncates(n: int, d: int)
    requires d != 0
    ensures IsTruncated(TruncDiv(n, d), n, d)
  {
    TruncIsFloor(Abs(n), Abs(d));
  }

  /** Products and quotients of any sign are truncated toward zero. */
  lemma MulTruncates(a: int, b: int)
    ensures IsTruncated(PreciseMul(a, b), a * b, PRECISE_UNIT)
  {
    TruncTruncates(a * b, PRECISE_UNIT);
  }

  lemma DivTruncates(a: int, b: int)
    requires b != 0
    ensures IsTruncated(PreciseDiv(a, b), a * PRECISE_UNIT, b)
  {
    TruncTruncates(a * PRECISE_UNIT, b);
  }

  /** A negative product is rounded up by one too many unless the unit divides the number after its magnitude. */
  lemma MulCeilExactly(a: int, b: int)
    ensures IsCeil(PreciseMulCeil(a, b), a * b, PRECISE_UNIT) <==> a * b >= 0 || (-(a * b) + 1) % PRECISE_UNIT == 0
    ensures IsCeil(PreciseMulCeil(a, b), a * b, PRECISE_UNIT) || IsCeil(PreciseMulCeil(a, b) - 1, a * b, PRECISE_UNIT)
  {
    var p, u := a * b, PRECISE_UNIT;
    if a != 0 && b != 0 {
      ProductNotZero(a, b);
      if p > 0 {
        TruncIsFloor(p - 1, u);
        CeilAfterPredecessor(TruncDiv(p - 1, u), p, u);
      } else {
        TruncOdd(-p + 1, u);
        TruncIsDivision(-p + 1, u);
        FloorOfSuccessor(-p, u);
        CeilOfNegative((-p + 1) / u - 1, -p, u);
        CeilOfNegative((-p + 1) / u, -p, u);
      }
    }
  }

  lemma ProductNotZero(a: int, b: int)
    requires a != 0 && b != 0
    ensures a * b != 0
  {
    MonoStrict(0, Abs(a), Abs(b));
  }

  lemma CeilAfterPredecessor(q: int, n: int, d: int)
    requires 0 < d && q * d <= n - 1 < q * d + d
    ensures IsCeil(q + 1, n, d)
  {
    assert (-(q + 1)) * d == -(q * d) - d;
  }

  lemma CeilOfNegative(q: int, n: int, d: int)
    requires 0 < d
    ensures IsCeil(-q, -n, d) <==> q * d <= n < q * d + d
  {
  }

  /** The floor of (n + 1) / d is one above that of n / d just where d divides n + 1. */
  lemma FloorOfSuccessor(n: int, d: int)
    requires 0 <= n && 0 < d
    ensures var q := (n + 1) / d - 1;
            && (q * d <= n < q * d + d <==> (n + 1) % d == 0)
            && ((n + 1) % d != 0 ==> (q + 1) * d <= n < (q + 1) * d + d)
  {
    var q, y := (n + 1) / d, (n + 1) % d;
    assert n + 1 == q * d + y;
    Distribute(q, 1, d);
  }

  /**
   The quotient is the ceiling for a positive divisor and dividend, and for no quotient of a negative divisor and a
   positive dividend; where the dividend is negative it depends on what the divisor divides.
   */
  lemma DivCeilExactly(a: int, b: int)
    requires b != 0
    ensures IsCeil(PreciseDivCeil(a, b), a * PRECISE_UNIT, b)
            <==> || a == 0
                 || (b > 0 && (a > 0 || (-a * PRECISE_UNIT + 1) % b == 0))
                 || (b < 0 && a < 0 && DividesNeither(a, b))
  {
    if a != 0 {
      var n, d := Abs(a) * PRECISE_UNIT, Abs(b);
      MonoStrict(0, Abs(a), PRECISE_UNIT);
      Distribute(0, a, PRECISE_UNIT);
      if a > 0 {
        TruncIsFloor(n - 1, d);
        var q := TruncDiv(n - 1, d);
        if b > 0 { CeilAfterPredecessor(q, n, d); } else { NeverCeil(q, n, d); }
      } else {
        TruncIsDivision(n + 1, d);
        TruncIsFloor(n + 1, d);
        if b > 0 {
          FloorOfSuccessor(n, d);
          CeilOfNegative((n + 1) / d - 1, n, d);
        } else {
          NextQuotient(n, d);
          CeilOverNegative((n + 1) / d + 1, n, d);
        }
      }
    }
  }

  /** Its value in every case, whether or not that is the ceiling; a zero divisor gives zero. */
  lemma DivCeilMagnitude(a: int, b: int)
    ensures a == 0 || b == 0 ==> PreciseDivCeil(a, b) == 0
    ensures a > 0 && b != 0 ==>
              PreciseDivCeil(a, b)
              == (if b > 0 then (a * PRECISE_UNIT - 1) / b else -((a * PRECISE_UNIT - 1) / -b)) + 1
    ensures a < 0 && b != 0 ==>
              PreciseDivCeil(a, b)
              == (if b > 0 then -((-a * PRECISE_UNIT + 1) / b) else (-a * PRECISE_UNIT + 1) / -b) + 1
  {
    if a != 0 && b != 0 {
      MonoStrict(0, Abs(a), PRECISE_UNIT);
      Distribute(0, a, PRECISE_UNIT);
      if a > 0 {
        TruncIsDivision(a * PRECISE_UNIT - 1, Abs(b));
        TruncIsFloor(a * PRECISE_UNIT - 1, Abs(b));
      } else {
        TruncIsDivision(-a * PRECISE_UNIT + 1, Abs(b));
        TruncIsFloor(-a * PRECISE_UNIT + 1, Abs(b));
      }
    }
  }

  lemma NeverCeil(q: int, n: int, d: int)
    requires 0 < d && q * d <= n - 1 < q * d + d
    ensures !IsCeil(-q + 1, n, -d)
  {
    assert (q - 1) * -d == -(q * d) + d;
  }

  lemma CeilOverNegative(q: int, n: int, d: int)
    requires 0 < d
    ensures IsCeil(q, -n, -d) <==> n <= q * d < n + d
  {
    assert -q * -d == q * d;
  }

  /** |b| divides neither |a| * U nor the number after it. */
  predicate DividesNeither(a: int, b: int)
    requires b < 0
  {
    (Abs(a) * PRECISE_UNIT) % -b != 0 && (Abs(a) * PRECISE_UNIT + 1) % -b != 0
  }

  /** One more than the floor of (n + 1) / d is the ceiling of n / d unless d divides n or n + 1. */
  lemma NextQuotient(n: int, d: int)
    requires 0 <= n && 0 < d
    ensures n <= ((n + 1) / d + 1) * d < n + d <==> n % d != 0 && (n + 1) % d != 0
  {
    var q, y := (n + 1) / d, (n + 1) % d;
    assert n + 1 == q * d + y;
    assert (q + 1) * d == n + 1 - y + d;
    if n % d == 0 {
      RemainderAfterMultiple(n / d, q, y, d);
    } else if y == 1 {
      MultipleHasNoRemainder(q, d);
    }
  }

  lemma RemainderAfterMultiple(k: int, q: int, y: int, d: int)
    requires 0 < d && 0 <= y < d && d * k + 1 == q * d + y
    ensures y <= 1
  {
    if y > 1 {
      if q < k { Mono(q + 1, k, d); } else { Mono(k, q, d); }
    }
  }

  lemma MultipleHasNoRemainder(q: int, d: int)
    requires 0 < d
    ensures (q * d) % d == 0
  {
    FloorUnique(q, q * d, d);
  }

  // ----- how much it takes for a rounded result to reach a given one

  /** The least quantity that scaling by f brings to y or more. */
  function Needed(y: nat, f: int): (r: nat)
    requires 0 < f
  {
    NonNegative(y, PRECISE_UNIT);
    CeilDiv(y * PRECISE_UNIT, f)
  }

  /** The least quantity that division by f brings to y or more. */
  function NeededToDivide(y: nat, f: int): (r: nat)
    requires 0 < f
  {
    NonNegative(y, f);
    CeilDiv(y * f, PRECISE_UNIT)
  }

  /** Rounding down after scaling reaches y exactly from the needed quantity on. */
  lemma ScalingReaches(x: int, f: int, y: nat)
    requires 0 <= x && 0 < f
    ensures y <= PreciseMul(x, f) <==> Needed(y, f) <= x
  {
    MulFloor(x, f);
    NonNegative(y, PRECISE_UNIT);
    ReachAlgebra(PRECISE_UNIT, x, f, y, PreciseMul(x, f), Needed(y, f));
  }

  lemma DivisionReaches(x: int, f: int, y: nat)
    requires 0 <= x && 0 < f
    ensures y <= PreciseDiv(x, f) <==> NeededToDivide(y, f) <= x
  {
    DivFloor(x, f);
    NonNegative(y, f);
    ReachAlgebra(f, x, PRECISE_UNIT, y, PreciseDiv(x, f), NeededToDivide(y, f));
  }

  lemma ReachAlgebra(u: int, x: int, f: int, y: int, scaled: int, needed: int)
    requires 0 < u && 0 < f
    requires scaled * u <= x * f < scaled * u + u
    requires y * u <= needed * f < y * u + f
    ensures y <= scaled <==> needed <= x
  {
    if y <= scaled {
      Mono(y, scaled, u);
      Distribute(x, 1, f);
      CancelStrict(needed, x + 1, f);
    }
    if needed <= x {
      Mono(needed, x, f);
      Distribute(scaled, 1, u);
      CancelStrict(y, scaled + 1, u);
    }
  }

  /** A floor is at least k exactly from the k-th multiple on. */
  lemma FloorAtLeast(n: int, d: int, q: int, k: int)
    requires 0 < d && q * d <= n < q * d + d
    ensures k <= q <==> k * d <= n
  {
    Distribute(q, 1, d);
    if k <= q { Mono(k, q, d); } else { Mono(q + 1, k, d); }
  }

  /** Two roundings in a row, of a product and then of a quotient, and the other way round. */
  lemma ScaleThenDivideReaches(x: int, f: int, d: int, y: nat)
    requires 0 <= x && 0 <= f && 0 < d
    ensures 0 <= PreciseDiv(PreciseMul(x, f), d)
    ensures y <= PreciseDiv(PreciseMul(x, f), d) <==> NeededToDivide(y, d) * PRECISE_UNIT <= x * f
  {
    MulFloor(x, f);
    DivFloor(PreciseMul(x, f), d);
    DivisionReaches(PreciseMul(x, f), d, y);
    FloorAtLeast(x * f, PRECISE_UNIT, PreciseMul(x, f), NeededToDivide(y, d));
  }

  lemma DivideThenScaleReaches(x: int, d: int, f: int, y: nat)
    requires 0 <= x && 0 < d && 0 < f
    ensures 0 <= PreciseMul(PreciseDiv(x, d), f)
    ensures y <= PreciseMul(PreciseDiv(x, d), f) <==> Needed(y, f) * d <= x * PRECISE_UNIT
  {
    DivFloor(x, d);
    MulFloor(PreciseDiv(x, d), f);
    ScalingReaches(PreciseDiv(x, d), f, y);
    FloorAtLeast(x * PRECISE_UNIT, d, PreciseDiv(x, d), Needed(y, f));
  }

  // ----- exactness of a truncated quotient

  /** For a negative dividend, truncation is exact just when nothing remains. */
  lemma TruncExact(a: int, b: int)
    requires a < 0 < b
    ensures a % b == 0 <==> TruncDiv(a, b) * b == a
  {
    TruncIsFloor(-a, b);
    TruncOdd(-a, b);
    RemainderOfNegation(-a, b, TruncDiv(-a, b));
  }

  lemma RemainderOfNegation(n: int, b: int, q: int)
    requires 0 < b && q * b <= n < q * b + b
    ensures -n % b == 0 <==> -q * b == -n
  {
    Distribute(0, q, b);
    var e := if q * b == n then -q else -q - 1;
    Distribute(-q, 1, b);
    FloorUnique(e, -n, b);
    assert -n == e * b + -n % b;
  }

  lemma TruncExactNegativeDivisor(a: int, b: int)
    requires b < 0 < a
    ensures a % (b * -1) == 0 <==> TruncDiv(a, b) * b == a
  {
    var d := -b;
    TruncIsDivision(a, d);
    assert a == (a / d) * d + a % d;
    assert TruncDiv(a, b) == -(a / d);
    assert -(a / d) * b == (a / d) * d;
  }

  /** The adjusted quotient is the floor, sign by sign. */
  lemma FloorFromMagnitude(a: int, b: int, result: int)
    requires b != 0
    requires var t := TruncDiv(a, b);
             result == if (a < 0 < b || b < 0 < a) && t * b != a then t - 1 else t
    ensures IsFloor(result, a, b)
  {
    var t := TruncDiv(a, b);
    TruncIsFloor(Abs(a), Abs(b));
    var q := TruncDiv(Abs(a), Abs(b));
    if (a < 0) == (b < 0) {
      assert t == q;
      if b < 0 { assert q * b == -(q * -b); }
    } else {
      assert t == -q;
      assert -q * b == -(q * b);
      if b < 0 { assert q * b == -(q * -b); }
      assert (t - 1) * b == t * b - b;
    }
  }
}

/** index-coop-smart-contracts' own versions. */
module CoopMath {
  import opened Wrappers
  import opened Products
  import opened FixedPoint
  import opened Rounding

  function PreciseDivCeilInt(a: int, b: int): (r: int)
  {
    if a == 0 || b == 0 then 0
    else if (a > 0 && b > 0) || (a < 0 && b < 0) then TruncDiv(a * PRECISE_UNIT - 1, b) + 1
    else TruncDiv(a * PRECISE_UNIT + 1, b) - 1
  }

  /** For a positive divisor the helper rounds away from zero, whatever the sign of the dividend. */
  lemma DivCeilIntPositiveDivisor(a: int, b: int)
    requires 0 < b
    ensures IsAwayFromZero(PreciseDivCeilInt(a, b), a * PRECISE_UNIT, b)
  {
    if a != 0 {
      var n := Abs(a) * PRECISE_UNIT;
      MonoStrict(0, Abs(a), PRECISE_UNIT);
      TruncIsFloor(n - 1, b);
      var q := TruncDiv(n - 1, b);
      Distribute(q, 1, b);
      if a < 0 {
        assert a * PRECISE_UNIT == -n;
        TruncOdd(n - 1, b);
      }
    }
  }

  /** For a negative divisor the magnitude it returns is one more than the floor of (|a| * U + 1) / |b|. */
  lemma DivCeilIntNegativeDivisorShape(a: int, b: int)
    requires b < 0 && a != 0
    ensures var n := Abs(a) * PRECISE_UNIT;
            && Abs(PreciseDivCeilInt(a, b)) == (n + 1) / -b + 1
            && (PreciseDivCeilInt(a, b) < 0 <==> a > 0)
  {
    var n := Abs(a) * PRECISE_UNIT;
    MonoStrict(0, Abs(a), PRECISE_UNIT);
    TruncIsDivision(n + 1, -b);
    TruncIsFloor(n + 1, -b);
    assert a * PRECISE_UNIT == if a < 0 then -n else n;
    assert PreciseDivCeilInt(a, b) == if a < 0 then TruncDiv(n + 1, -b) + 1 else -TruncDiv(n + 1, -b) - 1;
  }

  /**
   For a negative divisor the adjustment by one has the wrong sign: the result is n / d rounded away from
   zero exactly when the dividend is zero or |b| divides neither |a| * U nor |a| * U + 1.
   */
  lemma DivCeilIntNegativeDivisor(a: int, b: int)
    requires b < 0
    ensures IsAwayFromZero(PreciseDivCeilInt(a, b), a * PRECISE_UNIT, b) <==> a == 0 || DividesNeither(a, b)
  {
    if a != 0 {
      DivCeilIntNegativeDivisorShape(a, b);
      ScaledMagnitude(a, PRECISE_UNIT);
      NextQuotient(Abs(a) * PRECISE_UNIT, -b);
      MagnitudeDecides(PreciseDivCeilInt(a, b), a, a * PRECISE_UNIT, Abs(a) * PRECISE_UNIT, b);
    }
  }

  lemma ScaledMagnitude(a: int, u: int)
    requires a != 0 && 0 < u
    ensures 0 < Abs(a) * u && a * u == if a < 0 then -(Abs(a) * u) else Abs(a) * u
  {
    MonoStrict(0, Abs(a), u);
  }

  /** With the right sign, rounding away from zero is a matter of magnitudes. */
  lemma MagnitudeDecides(q: int, a: int, product: int, n: int, b: int)
    requires b < 0 && a != 0 && 0 < n && product == (if a < 0 then -n else n) && (q < 0 <==> a > 0)
    ensures IsAwayFromZero(q, product, b) <==> n <= Abs(q) * -b < n + -b
  {
  }

  /** The concrete disagreement: 1 / -1 comes back as -(U + 2), not -U. */
  lemma DivCeilIntNegativeDivisorWitness()
    ensures PreciseDivCeilInt(1, -1) == -(PRECISE_UNIT + 2)
    ensures !IsAwayFromZero(PreciseDivCeilInt(1, -1), PRECISE_UNIT, -1)
  {
    TruncIsFloor(PRECISE_UNIT + 1, 1);
    assert TruncDiv(PRECISE_UNIT + 1, -1) == -TruncDiv(PRECISE_UNIT + 1, 1);
  }

  /**
   Floor division. The remainder operation refuses a negative divisor, so with a negative divisor and a
   positive dividend the call throws; otherwise it returns the floor.
   */
  method DivDown(a: int, b: int) returns (r: Option<int>)
    ensures r.None? <==> b == 0 || (b < 0 && a > 0)
    ensures r.Some? ==> IsFloor(r.value, a, b)
  {
    if b == 0 { return None; }
    var result := TruncDiv(a, b);
    SignOfProduct(a, b);
    if a * b < 0 {
      if b < 0 { return None; }
      TruncExact(a, b);
      if a % b != 0 {
        result := result - 1;
      }
    }
    FloorFromMagnitude(a, b, result);
    return Some(result);
  }

  lemma SignOfProduct(a: int, b: int)
    ensures a * b < 0 <==> a < 0 < b || b < 0 < a
  {
    if a < 0 < b { MonoStrict(a, 0, b); }
    if b < 0 < a { MonoStrict(b, 0, a); }
    if 0 <= a && 0 <= b { NonNegative(a, b); }
    if a <= 0 && b <= 0 { NonNegative(-a, -b); }
  }

  /**
   Newton's integer square root. It terminates on every integer and returns the floor of the root; a
   negative argument comes back unchanged.
   */
  method Sqrt(value: int) returns (y: int)
    ensures value >= 0 ==> y >= 0 && y * y <= value < (y + 1) * (y + 1)
    ensures value < 0 ==> y == value
  {
    var z := TruncDiv(value + 1, 2);
    y := value;
    if value > 0 { FirstNewtonStep(value); } else { HalfIsNotBelow(value); }
    while z - y < 0
      invariant value <= 0 ==> y == value && y <= z
      invariant value > 0 ==> 0 < y && 0 < z && value < (y + 1) * (y + 1) && z == TruncDiv(TruncDiv(value, y) + y, 2)
      decreases y
    {
      NewtonStep(value, y);
      y := z;
      z := TruncDiv(TruncDiv(value, z) + z, 2);
      NewtonStep(value, y);
    }
    if value > 0 { NewtonExit(value, y); }
  }

  lemma HalfIsNotBelow(value: int)
    requires value <= 0
    ensures value <= TruncDiv(value + 1, 2)
  {
    TruncIsFloor(Abs(value + 1), 2);
  }

  lemma FirstNewtonStep(value: int)
    requires 0 < value
    ensures value < (value + 1) * (value + 1)
    ensures TruncDiv(value + 1, 2) == TruncDiv(TruncDiv(value, value) + value, 2)
  {
    TruncIsDivision(value, value);
    FloorUnique(1, value, value);
    NonNegative(value, value);
  }

  /** The mean of y and value / y never falls below the floor of the root. */
  lemma NewtonStep(value: int, y: int)
    requires 0 < value && 0 < y
    requires value < (y + 1) * (y + 1)
    ensures var z := TruncDiv(TruncDiv(value, y) + y, 2);
            0 < z && value < (z + 1) * (z + 1)
  {
    var q := TruncDiv(value, y);
    TruncIsFloor(value, y);
    var z := TruncDiv(q + y, 2);
    TruncIsFloor(q + y, 2);
    if q == 0 { assert y >= 2; }
    Distribute(q, 1, y);
    MeanOfFactors(value, q + 1, y, z);
  }

  /** If value < a * y then twice a mean just below (a + y) / 2 squares to more than value. */
  lemma MeanOfFactors(value: int, a: int, y: int, z: int)
    requires 0 < a && 0 < y && value < a * y && a + y <= 2 * z + 2
    ensures value < (z + 1) * (z + 1)
  {
    Square(a, y);
    SquareMono(a + y, 2 * z + 2);
    assert (2 * z + 2) * (2 * z + 2) == 4 * ((z + 1) * (z + 1));
  }

  lemma Square(a: int, b: int)
    ensures 4 * (a * b) <= (a + b) * (a + b)
  {
    assert (a + b) * (a + b) == 4 * (a * b) + (a - b) * (a - b);
    if a >= b {
      NonNegative(a - b, a - b);
    } else {
      NonNegative(b - a, b - a);
      assert (a - b) * (a - b) == (b - a) * (b - a);
    }
  }

  lemma SquareMono(a: int, b: int)
    requires 0 <= a <= b
    ensures a * a <= b * b
  {
    Mono(a, b, a);
    Mono(a, b, b);
  }

  lemma NewtonExit(value: int, y: int)
    requires 0 < value && 0 < y && y <= TruncDiv(TruncDiv(value, y) + y, 2)
    ensures y * y <= value
  {
    var q := TruncDiv(value, y);
    TruncIsFloor(value, y);
    TruncIsFloor(q + y, 2);
    Mono(y, q, y);
  }

  /**
   The base reserve a constant-product pool must be left with to trade at a given price: the
   largest b with b * b * p <= K * U, where p is the price adjusted for decimals. A price that adjusts to
   zero makes the division throw.
   */
  method BaseLeft(baseReserve: nat, quoteReserve: nat, price: nat, baseDecimals: int, quoteDecimals: nat)
    returns (r: Option<int>)
    requires 0 < baseDecimals
    ensures var p := price * quoteDecimals / baseDecimals;
            && (r.None? <==> p == 0)
            && (r.Some? ==>
                  && 0 <= r.value
                  && r.value * r.value * p <= baseReserve * quoteReserve * PRECISE_UNIT
                     < (r.value + 1) * (r.value + 1) * p)
  {
    var currentK := baseReserve * quoteReserve;
    NonNegative(baseReserve, quoteReserve);
    NonNegative(price, quoteDecimals);
    var p := TruncDiv(price * quoteDecimals, baseDecimals);
    TruncIsDivision(price * quoteDecimals, baseDecimals);
    TruncIsFloor(price * quoteDecimals, baseDecimals);
    if p == 0 { return None; }
    var ratio := PreciseDiv(currentK, p);
    DivFloor(currentK, p);
    var b := Sqrt(ratio);
    RootScaled(b * b, (b + 1) * (b + 1), ratio, p, currentK * PRECISE_UNIT);
    return Some(b);
  }

  lemma RootScaled(low: int, high: int, ratio: int, p: int, total: int)
    requires 0 < p && low <= ratio < high && ratio * p <= total < ratio * p + p
    ensures low * p <= total < high * p
  {
    Mono(low, ratio, p);
    Mono(ratio + 1, high, p);
    Distribute(ratio, 1, p);
  }
}

/** index-protocol's versions of the same two helpers. */
module ProtocolMath {
  import opened Wrappers
  import opened Products
  import opened FixedPoint
  import opened Rounding
  import CoopMath

  function PreciseDivCeilInt(a: int, b: int): (r: Option<int>)
  {
    if b == 0 then None
    else
      var result := TruncDiv(a * PRECISE_UNIT, b);
      if result * b == a * PRECISE_UNIT then Some(result)
      else if (a > 0 && b > 0) || (a < 0 && b < 0) then Some(result + 1)
      else Some(result - 1)
  }

  /** For every non-zero divisor, positive or negative, the result is rounded away from zero. */
  lemma DivCeilIntRoundsAway(a: int, b: int)
    requires b != 0
    ensures PreciseDivCeilInt(a, b).Some?
    ensures IsAwayFromZero(PreciseDivCeilInt(a, b).value, a * PRECISE_UNIT, b)
  {
    var n, d := Abs(a) * PRECISE_UNIT, Abs(b);
    NonNegative(Abs(a), PRECISE_UNIT);
    if a != 0 { MonoStrict(0, Abs(a), PRECISE_UNIT); }
    TruncIsFloor(n, d);
    var q := TruncDiv(n, d);
    assert a * PRECISE_UNIT == if a < 0 then -n else n;
    assert TruncDiv(a * PRECISE_UNIT, b) == if (a < 0) == (b < 0) || q == 0 then q else -q;
    ExactnessBySign(a, b, q, n);
    Distribute(q, 1, d);
  }

  /** The product test for exactness looks through the signs. */
  lemma ExactnessBySign(a: int, b: int, q: int, n: int)
    requires b != 0 && 0 <= q && 0 <= n && (n == 0 <==> a == 0)
    ensures var result := if (a < 0) == (b < 0) || q == 0 then q else -q;
            result * b == (if a < 0 then -n else n) <==> q * Abs(b) == n
  {
    assert q * -b == -(q * b) && -q * b == -(q * b);
    if q > 0 { MonoStrict(0, q, Abs(b)); }
  }

  /**
   The two versions agree exactly where the index-coop one is correct; on a zero divisor that one returns zero
   and this one throws.
   */
  lemma TwinsAgree(a: int, b: int)
    ensures PreciseDivCeilInt(a, b) == Some(CoopMath.PreciseDivCeilInt(a, b))
            <==> b > 0 || (b < 0 && (a == 0 || DividesNeither(a, b)))
    ensures b == 0 ==> PreciseDivCeilInt(a, b) == None && CoopMath.PreciseDivCeilInt(a, b) == 0
  {
    if b != 0 {
      DivCeilIntRoundsAway(a, b);
      if b > 0 {
        CoopMath.DivCeilIntPositiveDivisor(a, b);
      } else {
        CoopMath.DivCeilIntNegativeDivisor(a, b);
      }
      AwayFromZeroUnique(PreciseDivCeilInt(a, b).value, CoopMath.PreciseDivCeilInt(a, b), a * PRECISE_UNIT, b);
    }
  }

  lemma AwayFromZeroUnique(p: int, q: int, n: int, d: int)
    requires d != 0 && IsAwayFromZero(p, n, d)
    ensures IsAwayFromZero(q, n, d) <==> p == q
  {
    if IsAwayFromZero(q, n, d) {
      CeilUnique(Abs(p), Abs(n), Abs(d));
      CeilUnique(Abs(q), Abs(n), Abs(d));
    }
  }

  /** Floor division for every non-zero divisor. */
  method DivDown(a: int, b: int) returns (r: Option<int>)
    ensures r.None? <==> b == 0
    ensures r.Some? ==> IsFloor(r.value, a, b)
  {
    if b == 0 { return None; }
    var result := TruncDiv(a, b);
    if a < 0 && b > 0 && a % b != 0 {
      TruncExact(a, b);
      result := result - 1;
    } else if a > 0 && b < 0 && a % (b * -1) != 0 {
      TruncExactNegativeDivisor(a, b);
      result := result - 1;
    } else if a < 0 && b > 0 {
      TruncExact(a, b);
    } else if a > 0 && b < 0 {
      TruncExactNegativeDivisor(a, b);
    }
    FloorFromMagnitude(a, b, result);
    return Some(result);
  }
}
