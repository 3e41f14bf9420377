/**
 * SVG coordinates in the default 28-digit context: an integer offset plus or minus a rounded
 * quotient, rounded again by the addition and once more by the two-decimal quantum.
 */
module DecimalCoordinates {
  import opened Products
  import opened DecimalArithmetic

  const CONTEXT := 28

  /** Divisors below this bound are certain to round exactly. */
  const SPAN_LIMIT := 100_000_000_000_000_000_000

  function Signed(negate: bool, x: int): int {
    if negate then -x else x
  }

  /** A sum rounded to the context and then quantized to two decimals. */
  function Rounded(sum: nat, scale: nat): nat {
    Quantize(Fix(Num(sum, scale), CONTEXT), 2)
  }

  /** A coordinate in hundredths: each operation is rounded to 28 digits on its own. */
  function Coordinate(offset: nat, negate: bool, n: nat, r: nat): int
    requires r > 0
  {
    var q := Divide(n, r, CONTEXT);
    var sum := offset * Pow10(q.scale) + Signed(negate, q.coef);
    if sum >= 0 then Rounded(sum, q.scale) else 0 - Rounded(0 - sum, q.scale)
  }

  /** The exact numerator of offset +- n / r over r. */
  function Numerator(offset: int, negate: bool, n: int, r: int): int {
    offset * r + Signed(negate, n)
  }

  /** The coordinates that occur: from 0 up to one thousand, with a bounded divisor. */
  predicate InRange(offset: nat, negate: bool, n: nat, r: nat) {
    && 0 < r < SPAN_LIMIT
    && 0 <= Numerator(offset, negate, n, r) < 1000 * r
    && n < 1000 * r
  }

  // ---------------------------------------------------------------- the sum before rounding

  lemma QuotientHasDecimals(n: nat, r: nat)
    requires 0 < n < 1000 * r
    ensures QuotientScale(n, r, CONTEXT, 0) >= 25
  {
    var s := QuotientScale(n, r, CONTEXT, 0);
    Pow10Adds(3, 24);
    SmallPowers();
    MulNamed(r, 1000, Pow10(24), 1000 * r);
    QuotientAgainst(n, 1000 * r, Pow10(24), Pow10(s));
    PowerOrder(24, s);
  }

  lemma BigScale(r: int, s: nat)
    requires r < SPAN_LIMIT && s >= 25
    ensures Pow10(s) > 200 * r
  {
    SmallPowers();
    Pow10Adds(6, 6);
    Pow10Adds(12, 6);
    Pow10Adds(18, 6);
    Pow10Monotone(24, s);
  }

  /** The sum's error is the quotient's error. */
  lemma SumError(offset: int, negate: bool, n: int, r: int, c: int, t: int)
    ensures (offset * t + Signed(negate, c)) * r - Numerator(offset, negate, n, r) * t
         == Signed(negate, c * r - n * t)
  {
    MulAdd(offset * t, Signed(negate, c), r);
    MulAdd(offset * r, Signed(negate, n), t);
    MulGroup(offset, t, r);
    MulGroup(offset, r, t);
    assert t * r == r * t;
    if negate {
      assert (-c) * r == -(c * r) && (-n) * t == -(n * t);
    }
  }

  lemma SumBounds(m: int, a: int, r: int, t: int)
    requires 0 < r < t && 0 <= a < 1000 * r
    requires -r <= 2 * (m * r - a * t) <= r
    ensures 0 <= m < 1000 * t
  {
    MulLe(0, a, t);
    MulAdd(m, 1, r);
    CancelLt(0, m + 1, r);
    MulLe(a + 1, 1000 * r, t);
    MulAdd(a, 1, t);
    MulGroup(1000, r, t);
    MulGroup(1000, t, r);
    assert r * t == t * r;
    CancelLt(m, 1000 * t, r);
  }

  /** What is known about the sum: its size, its number of decimals and its error. */
  ghost predicate SumOf(m: int, a: int, r: int, s: int) {
    && s >= 25
    && 0 <= m < 1000 * Pow10(s)
    && -r <= 2 * (m * r - a * Pow10(s)) <= r
  }

  lemma SumWithinError(offset: int, negate: bool, n: int, r: int, c: int, t: int, nt: nat)
    requires nt == n * t && 0 < r < t && 0 <= Numerator(offset, negate, n, r) < 1000 * r
    requires c == HalfEven(nt, r)
    ensures var m, a := offset * t + Signed(negate, c), Numerator(offset, negate, n, r);
            0 <= m < 1000 * t && -r <= 2 * (m * r - a * t) <= r
  {
    HalfEvenError(nt, r);
    SumError(offset, negate, n, r, c, t);
    SumBounds(offset * t + Signed(negate, c), Numerator(offset, negate, n, r), r, t);
  }

  lemma SumIsClose(offset: nat, negate: bool, n: nat, r: nat)
    requires n > 0 && InRange(offset, negate, n, r)
    ensures var q := Divide(n, r, CONTEXT);
            SumOf(offset * Pow10(q.scale) + Signed(negate, q.coef),
                  Numerator(offset, negate, n, r), r, q.scale)
  {
    var q := Divide(n, r, CONTEXT);
    QuotientHasDecimals(n, r);
    BigScale(r, q.scale);
    SumWithinError(offset, negate, n, r, q.coef, Pow10(q.scale), n * Pow10(q.scale));
  }

  // ---------------------------------------------------------------- ties

  lemma TieQuotient(offset: int, negate: bool, n: int, r: int, k: int) returns (j: int)
    requires 2 * (100 * Numerator(offset, negate, n, r)) + r == k * (2 * r)
    ensures 200 * n == j * r
  {
    var i := 2 * k - 1 - 200 * offset;
    assert i * r == 2 * (k * r) - r - 200 * (offset * r);
    assert k * (2 * r) == 2 * (k * r);
    j := Signed(negate, i);
    assert negate ==> (-i) * r == -(i * r);
  }

  /** At a tie the division is exact, and so is the sum. */
  lemma TieSumIsExact(offset: nat, negate: bool, n: nat, r: nat, k: int)
    requires n > 0 && InRange(offset, negate, n, r)
    requires 2 * (100 * Numerator(offset, negate, n, r)) + r == k * (2 * r)
    ensures var q := Divide(n, r, CONTEXT);
            (offset * Pow10(q.scale) + Signed(negate, q.coef)) * r
            == Numerator(offset, negate, n, r) * Pow10(q.scale)
  {
    var q := Divide(n, r, CONTEXT);
    var t := Pow10(q.scale);
    QuotientHasDecimals(n, r);
    var j := TieQuotient(offset, negate, n, r, k);
    FivePower(q.scale);
    FactorOut(n, 200, r, j, 5 * Pow10(q.scale - 3));
    MultipleHasNoRemainder(r, j * (5 * Pow10(q.scale - 3)));
    HalfEvenError(n * t, r);
    SumError(offset, negate, n, r, q.coef, t);
  }

  lemma FivePower(s: nat)
    requires s >= 3
    ensures Pow10(s) == 200 * (5 * Pow10(s - 3))
  {
    Pow10Adds(3, s - 3);
    SmallPowers();
  }

  /** An exact sum at a tie ends in zeros, which the addition may drop. */
  lemma TieSumHasZeros(m: int, a: int, r: int, s: nat, k: int, drop: nat)
    requires r > 0 && s >= 3 && drop <= s - 3
    requires 2 * (100 * a) + r == k * (2 * r) && m * r == a * Pow10(s)
    ensures m % Pow10(drop) == 0
  {
    var j, five := 2 * k - 1, 5 * Pow10(s - 3);
    assert 200 * a == j * r by {
      assert k * (2 * r) == 2 * (k * r);
      MulSub(2 * k, 1, r);
    }
    FivePower(s);
    FactorOut(a, 200, r, j, five);
    CancelEq(m, j * five, r);
    PowerDivides(j, s - 3, drop);
  }

  lemma PowerDivides(j: int, s: nat, drop: nat)
    requires drop <= s
    ensures (j * (5 * Pow10(s))) % Pow10(drop) == 0
  {
    Pow10Adds(drop, s - drop);
    Rearrange(j, Pow10(drop), Pow10(s - drop));
    MultipleHasNoRemainder(Pow10(drop), j * (5 * Pow10(s - drop)));
  }

  lemma Rearrange(j: int, p: int, w: int)
    ensures j * (5 * (p * w)) == (j * (5 * w)) * p
  {
    MulRotate(5, p, w);
    MulRotate(j, p, 5 * w);
  }

  // ---------------------------------------------------------------- the addition's rounding

  lemma ErrorProduct(m: int, kept: int, unit: int, a: int, r: int, t: int, small: int)
    requires t == small * unit
    ensures (kept * r - a * small) * unit == (kept * unit - m) * r + (m * r - a * t)
  {
    MulSub(kept * r, a * small, unit);
    MulSub(kept * unit, m, r);
    MulGroup(kept, r, unit);
    MulGroup(kept, unit, r);
    MulGroup(a, small, unit);
    assert r * unit == unit * r;
  }

  lemma ErrorBound(e: int, unit: int, r: int, d1: int, d2: int)
    requires unit > 0 && r > 0 && -unit <= 2 * d1 <= unit && -r <= 2 * d2 <= r
    requires e * unit == d1 * r + d2
    ensures -r <= e <= r
  {
    MulLe(2 * d1, unit, r);
    MulLe(-unit, 2 * d1, r);
    MulGroup(2, d1, r);
    MulLe(1, unit, r);
    assert (-unit) * r == -(unit * r) && unit * r == r * unit;
    assert (-r) * unit == -(r * unit);
    CancelLe(e, r, unit);
    CancelLe(-r, e, unit);
  }

  /** The error after the addition's rounding, in units of the kept scale. */
  lemma KeptError(m: int, kept: int, unit: int, a: int, r: int, t: int, small: int)
    requires r > 0 && unit > 0 && t == small * unit && small > 200 * r
    requires -r <= 2 * (m * r - a * t) <= r
    requires -unit <= 2 * (kept * unit - m) <= unit
    ensures -small < 2 * ((100 * kept) * r - (100 * a) * small) < small
  {
    ErrorProduct(m, kept, unit, a, r, t, small);
    ErrorBound(kept * r - a * small, unit, r, kept * unit - m, m * r - a * t);
    MulGroup(100, kept, r);
    MulGroup(100, a, small);
  }

  lemma ExactAfterDrop(m: int, kept: int, unit: int, a: int, r: int, t: int, small: int)
    requires unit > 0 && t == small * unit && kept * unit == m && m * r == a * t
    ensures (100 * kept) * r == (100 * a) * small
  {
    ErrorProduct(m, kept, unit, a, r, t, small);
    assert 0 * unit == 0;
    CancelEq(kept * r - a * small, 0, unit);
    MulGroup(100, kept, r);
    MulGroup(100, a, small);
  }

  /** What the context keeps of a sum and how many digits it drops. */
  lemma Kept(m: nat, s: nat) returns (kept: nat, drop: nat)
    requires s >= 25 && m < 1000 * Pow10(s)
    ensures drop + 25 <= s && Fix(Num(m, s), CONTEXT) == Num(kept, s - drop)
    ensures -Pow10(drop) <= 2 * (kept * Pow10(drop) - m) <= Pow10(drop)
    ensures m % Pow10(drop) == 0 ==> kept * Pow10(drop) == m
  {
    hide HalfEven, Pow10;
    if m == 0 || Digits(m) <= CONTEXT {
      kept, drop := m, 0;
      SmallPowers();
    } else {
      drop := Digits(m) - CONTEXT;
      kept := HalfEven(m, Pow10(drop));
      HalfEvenError(m, Pow10(drop));
      Pow10Adds(3, s);
      SmallPowers();
      DigitsWithin(m, s + 3);
    }
  }

  /** The kept sum rounds to the same whole number of hundredths as the exact rational. */
  lemma KeptRoundsAlike(
    a: nat, r: int, m: int, t: int, kept: nat, unit: int, small: int)
    requires r > 0 && unit > 0 && t == small * unit && small > 200 * r
    requires -r <= 2 * (m * r - a * t) <= r
    requires -unit <= 2 * (kept * unit - m) <= unit
    requires (2 * (100 * a) + r) % (2 * r) == 0 ==> m * r == a * t && kept * unit == m
    ensures HalfUp(100 * kept, small) == HalfUp(100 * a, r)
  {
    KeptError(m, kept, unit, a, r, t, small);
    if (2 * (100 * a) + r) % (2 * r) == 0 {
      ExactAfterDrop(m, kept, unit, a, r, t, small);
    }
    ApproximationRoundsAlike(100 * a, r, 100 * kept, small);
  }

  lemma QuantizeToHundredths(kept: nat, scale: nat)
    requires scale >= 3
    ensures Quantize(Num(kept, scale), 2) == HalfUp(100 * kept, Pow10(scale))
  {
    Pow10Adds(2, scale - 2);
    SmallPowers();
    HalfUpCancels(kept, Pow10(scale - 2), 100);
  }

  /** Quantizing the kept sum rounds the exact rational. */
  lemma KeptQuantizes(a: nat, r: nat, m: nat, s: nat, kept: nat, drop: nat)
    requires r > 0 && SumOf(m, a, r, s) && drop + 25 <= s && Pow10(s - drop) > 200 * r
    requires -Pow10(drop) <= 2 * (kept * Pow10(drop) - m) <= Pow10(drop)
    requires (2 * (100 * a) + r) % (2 * r) == 0 ==>
               m * r == a * Pow10(s) && kept * Pow10(drop) == m
    ensures Quantize(Num(kept, s - drop), 2) == HalfUp(100 * a, r)
  {
    Pow10Adds(s - drop, drop);
    KeptRoundsAlike(a, r, m, Pow10(s), kept, Pow10(drop), Pow10(s - drop));
    QuantizeToHundredths(kept, s - drop);
  }

  lemma TieSumIsKept(a: nat, r: nat, m: nat, s: nat, kept: nat, drop: nat)
    requires r > 0 && drop + 25 <= s && m * r == a * Pow10(s)
    requires (2 * (100 * a) + r) % (2 * r) == 0
    requires m % Pow10(drop) == 0 ==> kept * Pow10(drop) == m
    ensures kept * Pow10(drop) == m
  {
    NoRemainderIsMultiple(2 * (100 * a) + r, 2 * r);
    TieSumHasZeros(m, a, r, s, (2 * (100 * a) + r) / (2 * r), drop);
  }

  lemma TieCoordinateIsKept(
    offset: nat, negate: bool, n: nat, r: nat, kept: nat, drop: nat)
    requires n > 0 && InRange(offset, negate, n, r)
    requires var q, a := Divide(n, r, CONTEXT), Numerator(offset, negate, n, r);
             var m := offset * Pow10(q.scale) + Signed(negate, q.coef);
             && drop + 25 <= q.scale
             && (2 * (100 * a) + r) % (2 * r) == 0
             && (m % Pow10(drop) == 0 ==> kept * Pow10(drop) == m)
    ensures var q, a := Divide(n, r, CONTEXT), Numerator(offset, negate, n, r);
            var m := offset * Pow10(q.scale) + Signed(negate, q.coef);
            m * r == a * Pow10(q.scale) && kept * Pow10(drop) == m
  {
    hide Divide, Numerator, Signed, Pow10;
    var q, a := Divide(n, r, CONTEXT), Numerator(offset, negate, n, r);
    var m := offset * Pow10(q.scale) + Signed(negate, q.coef);
    SumIsClose(offset, negate, n, r);
    NoRemainderIsMultiple(2 * (100 * a) + r, 2 * r);
    TieSumIsExact(offset, negate, n, r, (2 * (100 * a) + r) / (2 * r));
    TieSumIsKept(a, r, m, q.scale, kept, drop);
  }

  lemma NonzeroCoordinate(offset: nat, negate: bool, n: nat, r: nat)
    requires n > 0 && InRange(offset, negate, n, r)
    ensures Coordinate(offset, negate, n, r) == HalfUp(100 * Numerator(offset, negate, n, r), r)
  {
    hide Divide, Numerator, Signed, Pow10, Fix, Quantize, HalfUp;
    var q, a := Divide(n, r, CONTEXT), Numerator(offset, negate, n, r);
    var m := offset * Pow10(q.scale) + Signed(negate, q.coef);
    SumIsClose(offset, negate, n, r);
    var kept, drop := Kept(m, q.scale);
    if (2 * (100 * a) + r) % (2 * r) == 0 {
      TieCoordinateIsKept(offset, negate, n, r, kept, drop);
    }
    BigScale(r, q.scale - drop);
    KeptQuantizes(a, r, m, q.scale, kept, drop);
  }

  lemma IntegerRounded(m: nat)
    requires m < 1000
    ensures Rounded(m, 0) == 100 * m
  {
    SmallPowers();
    if m > 0 {
      DigitsWithin(m, 3);
    }
  }

  lemma ZeroCoordinate(offset: nat, negate: bool, r: nat)
    requires r > 0 && offset < 1000
    ensures Coordinate(offset, negate, 0, r) == 100 * offset
  {
    SmallPowers();
    assert Divide(0, r, CONTEXT) == Num(0, 0);
    IntegerRounded(offset);
  }

  lemma ZeroInRange(offset: nat, negate: bool, r: nat)
    requires InRange(offset, negate, 0, r)
    ensures offset < 1000 && 100 * Numerator(offset, negate, 0, r) == (100 * offset) * r
  {
    CancelLt(offset, 1000, r);
    MulGroup(100, offset, r);
  }

  /** The three roundings of a coordinate are one half-up rounding of the exact rational. */
  lemma CoordinateIsExact(offset: nat, negate: bool, n: nat, r: nat, exact: int)
    requires InRange(offset, negate, n, r) && exact == 100 * Numerator(offset, negate, n, r)
    ensures exact >= 0 && Coordinate(offset, negate, n, r) == HalfUp(exact, r)
  {
    if n == 0 {
      ZeroInRange(offset, negate, r);
      ZeroCoordinate(offset, negate, r);
      WholeQuotient(100 * offset, r);
    } else {
      NonzeroCoordinate(offset, negate, n, r);
    }
  }
}
