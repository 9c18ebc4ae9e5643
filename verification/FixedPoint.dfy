/** Facts about integer products that the rounding proofs quote by name. */
module Products {
  lemma Mono(a: int, b: int, c: int)
    requires a <= b && 0 <= c
    ensures a * c <= b * c
  {
  }

  lemma MonoStrict(a: int, b: int, c: int)
    requires a < b && 0 < c
    ensures a * c < b * c
  {
  }

  lemma Cancel(a: int, b: int, c: int)
    requires a * c <= b * c && 0 < c
    ensures a <= b
  {
    if b < a { MonoStrict(b, a, c); }
  }

  lemma CancelStrict(a: int, b: int, c: int)
    requires a * c < b * c && 0 <= c
    ensures a < b
  {
    if b <= a { Mono(b, a, c); }
  }

  lemma NonNegative(a: int, b: int)
    requires 0 <= a && 0 <= b
    ensures 0 <= a * b
  {
  }

  lemma Swap(a: int, b: int, c: int)
    ensures a * b * c == a * c * b
  {
  }

  lemma Associate(a: int, b: int, c: int)
    ensures a * b * c == a * (b * c)
  {
  }

  lemma Distribute(a: int, b: int, c: int)
    ensures (a + b) * c == a * c + b * c
    ensures (a - b) * c == a * c - b * c
  {
  }

  function Pow(b: nat, n: nat): (r: nat)
    ensures 0 < b ==> 0 < r
  {
    if n == 0 then 1 else b * Pow(b, n - 1)
  }

  /** A floor quotient is pinned down by its two defining inequalities. */
  lemma FloorUnique(q: int, n: int, d: int)
    requires 0 < d && q * d <= n < q * d + d
    ensures q == n / d
  {
    var e := n / d;
    assert n == e * d + n % d;
    if q < e {
      Mono(q + 1, e, d);
    } else if e < q {
      Mono(e + 1, q, d);
    }
  }
}

/**
 The 18-decimal arithmetic shared by every rounded computation. The library integers behind it
 truncate quotients toward zero, so Dafny's `/`, which is Euclidean, is not used for them.
 */
module FixedPoint {
  import opened Products

  /** A positive unit; the value it takes by default is the source's, one followed by eighteen zeros. */
  type Unit = u: int | 0 < u witness 1_000_000_000_000_000_000

  /** The precise unit. Nothing below uses more of it than that it is positive. */
  const PRECISE_UNIT: Unit

  function Abs(x: int): (r: nat)
  {
    if x < 0 then -x else x
  }

  /** How many times b fits into a. */
  function Quotient(a: nat, b: int): (q: nat)
    requires 0 < b
  {
    if a < b then 0 else Quotient(a - b, b) + 1
  }

  lemma {:induction false} QuotientIsFloor(a: nat, b: int)
    requires 0 < b
    ensures Quotient(a, b) * b <= a < Quotient(a, b) * b + b
    ensures Quotient(a, b) == a / b
  {
    if a >= b {
      QuotientIsFloor(a - b, b);
      Distribute(1, Quotient(a - b, b), b);
    }
    FloorUnique(Quotient(a, b), a, b);
  }

  /** Integer division truncating toward zero. */
  function TruncDiv(a: int, b: int): (r: int)
    requires b != 0
  {
    var q: int := Quotient(Abs(a), Abs(b));
    if (a < 0) == (b < 0) then q else -q
  }

  function PreciseMul(a: int, b: int): (r: int)
  {
    TruncDiv(a * b, PRECISE_UNIT)
  }

  function PreciseMulCeil(a: int, b: int): (r: int)
  {
    if a == 0 || b == 0 then 0 else TruncDiv(a * b - 1, PRECISE_UNIT) + 1
  }

  function PreciseMulCeilInt(a: int, b: int): (r: int)
  {
    if a == 0 || b == 0 then 0
    else if (a > 0 && b > 0) || (a < 0 && b < 0) then TruncDiv(a * b - 1, PRECISE_UNIT) + 1
    else TruncDiv(a * b + 1, PRECISE_UNIT) - 1
  }

  function PreciseDiv(a: int, b: int): (r: int)
    requires b != 0
  {
    TruncDiv(a * PRECISE_UNIT, b)
  }

  function PreciseDivCeil(a: int, b: int): (r: int)
  {
    if a == 0 || b == 0 then 0 else TruncDiv(a * PRECISE_UNIT - 1, b) + 1
  }

  /** On non-negative operands truncation is the floor. */
  lemma TruncIsFloor(a: int, b: int)
    requires 0 <= a && 0 < b
    ensures 0 <= TruncDiv(a, b)
    ensures TruncDiv(a, b) * b <= a < TruncDiv(a, b) * b + b
  {
    QuotientIsFloor(a, b);
  }

  /** On naturals the quotient is the built-in one. */
  lemma TruncIsDivision(a: int, b: int)
    requires 0 <= a && 0 < b
    ensures TruncDiv(a, b) == a / b
  {
    QuotientIsFloor(a, b);
  }

  /** Truncation does not care about the sign. */
  lemma TruncOdd(a: int, b: int)
    requires 0 < b
    ensures TruncDiv(-a, b) == -TruncDiv(a, b)
  {
    if a == 0 { TruncIsFloor(0, b); ZeroFloor(TruncDiv(0, b), b); }
  }

  lemma ZeroFloor(q: int, b: int)
    requires 0 < b && 0 <= q && q * b <= 0
    ensures q == 0
  {
    if q > 0 { MonoStrict(0, q, b); }
  }

  lemma TruncMonotone(a: int, a': int, b: int)
    requires 0 <= a <= a' && 0 < b
    ensures TruncDiv(a, b) <= TruncDiv(a', b)
  {
    TruncIsFloor(a, b);
    TruncIsFloor(a', b);
    Distribute(TruncDiv(a', b), 1, b);
    CancelStrict(TruncDiv(a, b), TruncDiv(a', b) + 1, b);
  }

  lemma MulMonotone(a: int, a': int, b: int)
    requires 0 <= a <= a' && 0 <= b
    ensures PreciseMul(a, b) <= PreciseMul(a', b)
  {
    NonNegative(a, b);
    Mono(a, a', b);
    TruncMonotone(a * b, a' * b, PRECISE_UNIT);
  }

  lemma DivMonotone(a: int, a': int, b: int)
    requires 0 <= a <= a' && 0 < b
    ensures 0 <= PreciseDiv(a, b) <= PreciseDiv(a', b)
  {
    DivFloor(a, b);
    NonNegative(a, PRECISE_UNIT);
    Mono(a, a', PRECISE_UNIT);
    TruncMonotone(a * PRECISE_UNIT, a' * PRECISE_UNIT, b);
  }

  lemma MulFloor(a: int, b: int)
    requires 0 <= a && 0 <= b
    ensures 0 <= PreciseMul(a, b)
    ensures PreciseMul(a, b) * PRECISE_UNIT <= a * b < PreciseMul(a, b) * PRECISE_UNIT + PRECISE_UNIT
  {
    NonNegative(a, b);
    TruncIsFloor(a * b, PRECISE_UNIT);
  }

  /** A product with one negative factor is rounded up, toward zero. */
  lemma MulTowardZero(a: int, b: int)
    requires 0 <= a && b < 0
    ensures PreciseMul(a, b) * PRECISE_UNIT - PRECISE_UNIT < a * b <= PreciseMul(a, b) * PRECISE_UNIT
  {
    MulFloor(a, -b);
    assert a * -b == -(a * b);
    TruncOdd(a * -b, PRECISE_UNIT);
    Distribute(0, PreciseMul(a, -b), PRECISE_UNIT);
  }

  /** Scaling by at most one unit never increases a quantity. */
  lemma MulShrinks(a: int, b: int)
    requires 0 <= a && 0 <= b <= PRECISE_UNIT
    ensures 0 <= PreciseMul(a, b) <= a
  {
    MulFloor(a, b);
    Mono(b, PRECISE_UNIT, a);
  }

  lemma MulCeil(a: int, b: int)
    requires 0 <= a && 0 <= b
    ensures a * b <= PreciseMulCeil(a, b) * PRECISE_UNIT < a * b + PRECISE_UNIT
    ensures 0 <= PreciseMulCeil(a, b)
  {
    if a != 0 && b != 0 {
      MonoStrict(0, a, b);
      TruncIsFloor(a * b - 1, PRECISE_UNIT);
    }
  }

  /** Rounding a product away from zero, for every pair of signs. */
  lemma MulCeilIntRoundsAway(a: int, b: int)
    ensures Abs(a * b) <= Abs(PreciseMulCeilInt(a, b)) * PRECISE_UNIT < Abs(a * b) + PRECISE_UNIT
    ensures a * b > 0 ==> PreciseMulCeilInt(a, b) > 0
    ensures a * b < 0 ==> PreciseMulCeilInt(a, b) < 0
  {
    if a != 0 && b != 0 {
      var p, u := a * b, PRECISE_UNIT;
      if (a > 0 && b > 0) || (a < 0 && b < 0) {
        if a > 0 { MonoStrict(0, a, b); } else { MonoStrict(0, -a, -b); }
        TruncIsFloor(p - 1, u);
        Distribute(TruncDiv(p - 1, u), 1, u);
      } else {
        if a > 0 { MonoStrict(b, 0, a); } else { MonoStrict(a, 0, b); }
        TruncIsFloor(-p - 1, u);
        TruncOdd(-p - 1, u);
        Distribute(TruncDiv(-p - 1, u), 1, u);
      }
    }
  }

  lemma DivFloor(a: int, b: int)
    requires 0 <= a && 0 < b
    ensures 0 <= PreciseDiv(a, b)
    ensures PreciseDiv(a, b) * b <= a * PRECISE_UNIT < PreciseDiv(a, b) * b + b
  {
    TruncIsFloor(a * PRECISE_UNIT, b);
  }

  /** On non-negative operands, products and quotients in the built-in division. */
  lemma MulIsQuotient(a: int, b: int)
    requires 0 <= a && 0 <= b
    ensures PreciseMul(a, b) == a * b / PRECISE_UNIT
  {
    NonNegative(a, b);
    TruncIsDivision(a * b, PRECISE_UNIT);
  }

  lemma MulIs(a: int, b: int, q: int)
    requires 0 <= a && 0 <= b && q * PRECISE_UNIT <= a * b < q * PRECISE_UNIT + PRECISE_UNIT
    ensures PreciseMul(a, b) == q
  {
    NonNegative(a, b);
    TruncIsDivision(a * b, PRECISE_UNIT);
    FloorUnique(q, a * b, PRECISE_UNIT);
  }

  lemma DivIs(a: int, b: int, q: int)
    requires 0 <= a && 0 < b && q * b <= a * PRECISE_UNIT < q * b + b
    ensures PreciseDiv(a, b) == q
  {
    NonNegative(a, PRECISE_UNIT);
    TruncIsDivision(a * PRECISE_UNIT, b);
    FloorUnique(q, a * PRECISE_UNIT, b);
  }

  lemma DivCeil(a: int, b: int)
    requires 0 <= a && 0 < b
    ensures 0 <= PreciseDivCeil(a, b)
    ensures a * PRECISE_UNIT <= PreciseDivCeil(a, b) * b < a * PRECISE_UNIT + b
  {
    if a != 0 {
      TruncIsFloor(a * PRECISE_UNIT - 1, b);
      var q := TruncDiv(a * PRECISE_UNIT - 1, b);
      assert (q + 1) * b == q * b + b;
    }
  }
}
