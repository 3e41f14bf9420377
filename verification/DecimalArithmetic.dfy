/**
 * Decimal arithmetic at a finite precision on non-negative values: correctly rounded
 * division, the context's rounding of a result, and quantizing with ROUND_HALF_UP.
 */
module DecimalArithmetic {
  import opened Products

  function Pow10(k: nat): (p: int)
    ensures p >= 1
  {
    if k == 0 then 1 else 10 * Pow10(k - 1)
  }

  /** The number of decimal digits of a positive integer. */
  function Digits(n: nat): (d: nat)
    requires n > 0
    ensures d >= 1
    ensures Pow10(d - 1) <= n < Pow10(d)
  {
    if n < 10 then 1
    else
      var d := Digits(n / 10) + 1;
      assert Pow10(d - 1) == 10 * Pow10(d - 2) && Pow10(d) == 10 * Pow10(d - 1);
      d
  }

  /** The value coef / 10^scale; a negative scale means trailing zeros. */
  datatype Num = Num(coef: nat, scale: int)

  /** The nearest integer to a quotient, ties going to the even one. */
  function HalfEven(a: nat, b: nat): nat
    requires b > 0
  {
    var q, r := a / b, a % b;
    if 2 * r < b then q
    else if 2 * r > b then q + 1
    else if q % 2 == 0 then q
    else q + 1
  }

  /** The nearest integer to a quotient, ties going up. */
  function HalfUp(a: nat, b: nat): nat
    requires b > 0
  {
    (2 * a + b) / (2 * b)
  }

  /** Round to at most `precision` significant digits. */
  function Fix(x: Num, precision: nat): Num
    requires precision >= 1
  {
    if x.coef == 0 || Digits(x.coef) <= precision then x
    else
      var drop := Digits(x.coef) - precision;
      Num(HalfEven(x.coef, Pow10(drop)), x.scale - drop)
  }

  /** An integer rounded to at most `precision` significant digits. */
  function FixInteger(m: nat, precision: nat): nat
    requires precision >= 1
  {
    var x := Fix(Num(m, 0), precision);
    if x.scale < 0 then x.coef * Pow10(-x.scale) else x.coef
  }

  lemma ScaleStep(n: int, r: int, p: int, target: int)
    requires n > 0 && p >= 1 && n * p < target
    ensures n * (10 * p) > n * p
  {
    MulLt(p, 10 * p, n);
  }

  /** The least scale from `from` at which n / r has `precision` significant digits. */
  function QuotientScale(n: nat, r: nat, precision: nat, from: nat): (s: nat)
    requires n > 0 && r > 0 && precision >= 1
    ensures n * Pow10(s) >= r * Pow10(precision - 1)
    ensures s >= from
    ensures s > from ==> n * Pow10(s - 1) < r * Pow10(precision - 1)
    decreases r * Pow10(precision - 1) - n * Pow10(from)
  {
    if n * Pow10(from) >= r * Pow10(precision - 1) then from
    else
      ScaleStep(n, r, Pow10(from), r * Pow10(precision - 1));
      QuotientScale(n, r, precision, from + 1)
  }

  /** n / r correctly rounded to `precision` significant digits. */
  function Divide(n: nat, r: nat, precision: nat): (q: Num)
    requires r > 0 && precision >= 1
    ensures q.scale >= 0
  {
    if n == 0 then Num(0, 0)
    else
      var s := QuotientScale(n, r, precision, 0);
      Num(HalfEven(n * Pow10(s), r), s)
  }

  /** Rounding half up to a number of decimal places, in units of the last place. */
  function Quantize(x: Num, places: nat): nat {
    if x.scale <= places then x.coef * Pow10(places - x.scale)
    else HalfUp(x.coef, Pow10(x.scale - places))
  }

  /** Multiplying by one hundred at the context's precision. */
  function TimesHundred(x: Num, precision: nat): Num
    requires precision >= 1
  {
    Fix(Num(100 * x.coef, x.scale), precision)
  }

  /** The percentage as the program computes it, three roundings at one precision, in tenths. */
  function PercentageTenths(n: nat, r: nat, precision: nat): nat
    requires r > 0 && precision >= 1
  {
    Quantize(TimesHundred(Divide(n, r, precision), precision), 1)
  }

  // ---------------------------------------------------------------- powers of ten

  lemma {:induction false} Pow10Adds(a: nat, b: nat)
    ensures Pow10(a + b) == Pow10(a) * Pow10(b)
  {
    if a > 0 {
      Pow10Adds(a - 1, b);
      MulGroup(10, Pow10(a - 1), Pow10(b));
    }
  }

  lemma {:induction false} Pow10Monotone(a: nat, b: nat)
    requires a <= b
    ensures Pow10(a) <= Pow10(b)
    decreases b - a
  {
    if a < b {
      Pow10Monotone(a, b - 1);
    }
  }

  lemma SmallPowers()
    ensures Pow10(0) == 1 && Pow10(1) == 10 && Pow10(2) == 100 && Pow10(3) == 1000
    ensures Pow10(4) == 10000 && Pow10(5) == 100000 && Pow10(6) == 1000000
  {
  }

  lemma PowerOrder(a: nat, b: nat)
    requires Pow10(a) < Pow10(b)
    ensures a < b
  {
    if b <= a {
      Pow10Monotone(b, a);
      assert false;
    }
  }

  lemma DigitsWithin(n: nat, k: nat)
    requires n > 0 && n < Pow10(k)
    ensures Digits(n) <= k
  {
    PowerOrder(Digits(n) - 1, k);
  }

  lemma DigitsExactly(n: nat, d: nat)
    requires n > 0 && d >= 1 && Pow10(d - 1) <= n < Pow10(d)
    ensures Digits(n) == d
  {
    PowerOrder(Digits(n) - 1, d);
    PowerOrder(d - 1, Digits(n));
  }

  // ---------------------------------------------------------------- the two roundings

  /** The rounded quotient is the one integer within half a unit, the lower half closed. */
  lemma HalfUpMeans(a: nat, b: nat, q: int)
    requires b > 0
    ensures q == HalfUp(a, b) <==> 2 * (q * b) - b <= 2 * a < 2 * (q * b) + b
  {
    var h := HalfUp(a, b);
    DivisionBounds(2 * a + b, 2 * b);
    assert h * (2 * b) == 2 * (h * b) && q * (2 * b) == 2 * (q * b);
    if 2 * (q * b) - b <= 2 * a < 2 * (q * b) + b {
      QuotientIs(2 * a + b, 2 * b, q);
    }
  }

  lemma HalfUpMonotone(a: nat, b: nat, r: nat)
    requires r > 0 && a <= b
    ensures HalfUp(a, r) <= HalfUp(b, r)
  {
    var x, y := HalfUp(a, r), HalfUp(b, r);
    HalfUpMeans(a, r, x);
    HalfUpMeans(b, r, y);
    MulAdd(y, 1, r);
    CancelLt(x, y + 1, r);
  }

  lemma HalfUpShift(a: nat, r: nat)
    requires r > 0
    ensures HalfUp(a + r, r) == HalfUp(a, r) + 1
  {
    var q := HalfUp(a, r);
    HalfUpMeans(a, r, q);
    MulAdd(q, 1, r);
    HalfUpMeans(a + r, r, q + 1);
  }

  lemma WholeQuotient(k: nat, r: nat)
    requires r > 0
    ensures k * r >= 0 && HalfUp(k * r, r) == k
  {
    HalfUpMeans(k * r, r, k);
  }

  lemma HalfUpBound(a: nat, r: nat)
    requires r > 0
    ensures HalfUp(a, r) <= a + 1
  {
    var q := HalfUp(a, r);
    HalfUpMeans(a, r, q);
    if q > 0 {
      MulLe(1, r, q);
      assert q * r == r * q;
      MulLe(1, r, 2 * q - 1);
      assert r * (2 * q - 1) == 2 * (q * r) - r;
    }
  }

  lemma HalfUpCancels(a: nat, b: nat, m: nat)
    requires b > 0 && m > 0
    ensures m * b > 0 && m * a >= 0 && HalfUp(m * a, m * b) == HalfUp(a, b)
  {
    var q := HalfUp(a, b);
    HalfUpMeans(a, b, q);
    ScaledBounds(a, b, m, q);
    HalfUpMeans(m * a, m * b, q);
  }

  lemma ScaledBounds(a: int, b: int, m: int, q: int)
    requires a >= 0 && b > 0 && m > 0
    requires 2 * (q * b) - b <= 2 * a < 2 * (q * b) + b
    ensures m * b > 0 && m * a >= 0
    ensures 2 * (q * (m * b)) - m * b <= 2 * (m * a) < 2 * (q * (m * b)) + m * b
  {
    var p := q * b;
    MulRotate(q, m, b);
    MulLe(2 * p - b, 2 * a, m);
    MulLt(2 * a, 2 * p + b, m);
    assert (2 * p - b) * m == 2 * (m * p) - m * b;
    assert (2 * p + b) * m == 2 * (m * p) + m * b;
    assert (2 * a) * m == 2 * (m * a);
  }

  lemma HalfEvenError(a: int, b: int)
    requires a >= 0 && b > 0
    ensures -b <= 2 * (HalfEven(a, b) * b - a) <= b
    ensures a % b == 0 ==> HalfEven(a, b) * b == a
  {
    var q := a / b;
    MulAdd(q, 1, b);
    assert a == q * b + a % b;
  }

  /** As near to a / b as any integer, and even when another one is as near. */
  ghost predicate NearestEven(c: int, a: int, b: int) {
    && -b <= 2 * (c * b - a) <= b
    && (2 * (c * b - a) == b || 2 * (c * b - a) == -b ==> c % 2 == 0)
  }

  lemma HalfEvenIsNearest(a: int, b: int)
    requires a >= 0 && b > 0
    ensures NearestEven(HalfEven(a, b), a, b)
  {
    var q := a / b;
    MulAdd(q, 1, b);
    assert a == q * b + a % b;
  }

  /** There is only one such integer. */
  lemma HalfEvenMeans(a: int, b: int, c: int)
    requires a >= 0 && b > 0
    ensures c == HalfEven(a, b) <==> NearestEven(c, a, b)
  {
    HalfEvenIsNearest(a, b);
    if NearestEven(c, a, b) {
      NearestIsOne(c, HalfEven(a, b), a, b);
    }
  }

  lemma AtMostOneAbove(c: int, d: int, b: int)
    requires b > 0 && c * b <= d * b + b
    ensures c <= d + 1
    ensures c == d + 1 ==> c * b == d * b + b
  {
    MulAdd(d, 1, b);
    CancelLe(c, d + 1, b);
  }

  lemma NearestIsOne(c: int, d: int, a: int, b: int)
    requires b > 0 && NearestEven(c, a, b) && NearestEven(d, a, b)
    ensures c == d
  {
    AtMostOneAbove(c, d, b);
    AtMostOneAbove(d, c, b);
  }

  /** A rounded value does not exceed an integer bound of the exact one. */
  lemma RoundedBelow(a: int, r: int, limit: int, c: int)
    requires r > 0 && a <= limit * r && 2 * (c * r - a) <= r
    ensures c <= limit
  {
    MulAdd(limit, 1, r);
    CancelLt(c, limit + 1, r);
  }

  lemma TieRemainder(a: int, b: int, q: int)
    requires b > 0 && 2 * a + b == 2 * (q * b)
    ensures (2 * a + b) % (2 * b) == 0
  {
    MulRotate(q, 2, b);
    MultipleHasNoRemainder(2 * b, q);
  }

  /** Half-up rounding ignores a small error that vanishes at ties. */
  lemma ApproximationRoundsAlike(a: int, b: int, c: int, t: int)
    requires a >= 0 && b > 0 && c >= 0 && t > 0
    requires -t < 2 * (c * b - a * t) < t
    requires (2 * a + b) % (2 * b) == 0 ==> c * b == a * t
    ensures HalfUp(c, t) == HalfUp(a, b)
  {
    var q := HalfUp(a, b);
    HalfUpMeans(a, b, q);
    if 2 * a + b == 2 * (q * b) {
      TieRemainder(a, b, q);
    }
    BoundsFromError(a, b, c, t, q, 2 * (q * t) - t, 2 * (q * t) + t);
    HalfUpMeans(c, t, q);
  }

  lemma BoundsFromError(a: int, b: int, c: int, t: int, q: int, low: int, high: int)
    requires b > 0 && t > 0
    requires low == 2 * (q * t) - t && high == 2 * (q * t) + t
    requires 2 * (q * b) - b <= 2 * a < 2 * (q * b) + b
    requires -t < 2 * (c * b - a * t) < t
    requires 2 * a + b == 2 * (q * b) ==> c * b == a * t
    ensures low <= 2 * c < high
  {
    var rest := 2 * a + b - 2 * (q * b);
    ErrorSplit(a, b, t, q, rest, low, high);
    RestTimes(b, t, rest);
    MulGroup(2, c, b);
    CoreBounds(b, t, low, 2 * c, high, rest);
  }

  /** 2 a t in terms of the boundary and the rest. */
  lemma ErrorSplit(a: int, b: int, t: int, q: int, rest: int, low: int, high: int)
    requires rest == 2 * a + b - 2 * (q * b)
    requires low == 2 * (q * t) - t && high == 2 * (q * t) + t
    ensures 2 * (a * t) == low * b + rest * t
    ensures high * b == low * b + 2 * (b * t)
  {
    assert rest * t == 2 * (a * t) + b * t - 2 * ((q * b) * t);
    assert low * b == 2 * ((q * b) * t) - b * t;
    assert high * b == 2 * ((q * b) * t) + b * t;
  }

  lemma RestTimes(b: int, t: int, rest: int)
    requires t > 0
    ensures rest >= 1 ==> rest * t >= t
    ensures rest < 2 * b ==> rest * t <= 2 * (b * t) - t
  {
    if rest >= 1 {
      MulLe(1, rest, t);
    }
    if rest < 2 * b {
      MulLe(rest + 1, 2 * b, t);
      MulAdd(rest, 1, t);
      MulGroup(2, b, t);
    }
  }

  lemma CoreBounds(b: int, t: int, low: int, mid: int, high: int, rest: int)
    requires b > 0 && 0 <= rest < 2 * b
    requires rest * t <= 2 * (b * t) - t && (rest >= 1 ==> rest * t >= t)
    requires high * b == low * b + 2 * (b * t)
    requires -t < mid * b - (low * b + rest * t) < t
    requires rest == 0 ==> mid * b == low * b
    ensures low <= mid < high
  {
    if rest == 0 {
      CancelEq(mid, low, b);
    }
    CancelLe(low, mid, b);
    CancelLt(mid, high, b);
  }

  // ---------------------------------------------------------------- percentage

  lemma QuotientAgainst(a: int, b: int, c: int, d: int)
    requires 0 < a < b && c > 0 && a * d >= c * b
    ensures d > c
  {
    MulLt(a, b, c);
    assert c * a == a * c && b * c == c * b;
    assert c * a < d * a;
    CancelLt(c, d, a);
  }

  /** The intermediate quotient keeps more than three decimals beyond the divisor's size. */
  lemma ScaleIsLarge(n: nat, r: nat, precision: nat)
    requires n > 0 && r > 0 && precision >= 5 && n < Pow10(precision - 4)
    ensures var s := QuotientScale(n, r, precision, 0);
            s >= 4 && Pow10(s) > 1000 * r
  {
    var s := QuotientScale(n, r, precision, 0);
    var p := Pow10(precision - 4);
    Pow10Adds(3, precision - 4);
    SmallPowers();
    assert r * (1000 * p) == (1000 * r) * p;
    QuotientAgainst(n, p, 1000 * r, Pow10(s));
    PowerOrder(3, s);
  }

  lemma FactorOut(n: int, k: int, r: int, j: int, five: int)
    requires k * n == j * r
    ensures n * (k * five) == (j * five) * r
  {
    MulNamed(n, k, five, j * r);
    MulGroup(j, r, five);
    MulRotate(j, r, five);
    assert r * (j * five) == (j * five) * r;
  }

  /** At a tie the quotient terminates early, so the division is exact. */
  lemma TieIsExact(n: nat, r: nat, s: nat, q: nat)
    requires r > 0 && s >= 4 && 2 * (1000 * n) + r == q * (2 * r)
    ensures (n * Pow10(s)) % r == 0
  {
    var five := 5 * Pow10(s - 4);
    Pow10Adds(4, s - 4);
    SmallPowers();
    TieNumerator(n, r, q);
    FactorOut(n, 2000, r, 2 * q - 1, five);
    MultipleHasNoRemainder(r, (2 * q - 1) * five);
  }

  lemma TieNumerator(n: int, r: int, q: int)
    requires 2 * (1000 * n) + r == q * (2 * r)
    ensures 2000 * n == (2 * q - 1) * r
  {
    MulSub(2 * q, 1, r);
    MulRotate(q, 2, r);
  }

  lemma ScaledError(c: int, r: int, n: int, t: int)
    ensures (1000 * c) * r - (1000 * n) * t == 1000 * (c * r - n * t)
  {
    MulGroup(1000, c, r);
    MulGroup(1000, n, t);
  }

  /** Where the exact percentage lies halfway, the quotient was not rounded at all. */
  lemma TieQuotientIsExact(n: nat, r: nat, s: nat)
    requires r > 0 && s >= 4 && (2 * (1000 * n) + r) % (2 * r) == 0
    ensures HalfEven(n * Pow10(s), r) * r == n * Pow10(s)
  {
    NoRemainderIsMultiple(2 * (1000 * n) + r, 2 * r);
    TieIsExact(n, r, s, (2 * (1000 * n) + r) / (2 * r));
    HalfEvenError(n * Pow10(s), r);
  }

  /** A quotient within half a unit, scaled to tenths of a percent, rounds like the rational. */
  lemma TenthsRoundAlike(n: int, r: int, c: int, t: int)
    requires n >= 0 && c >= 0 && r > 0 && t > 1000 * r && -r <= 2 * (c * r - n * t) <= r
    requires (2 * (1000 * n) + r) % (2 * r) == 0 ==> c * r == n * t
    ensures HalfUp(1000 * c, t) == HalfUp(1000 * n, r)
  {
    ScaledError(c, r, n, t);
    ApproximationRoundsAlike(1000 * n, r, 1000 * c, t);
  }

  /** Quantizing the rounded quotient gives the half-up rounding of the exact rational. */
  lemma QuotientThenQuantize(n: nat, r: nat, precision: nat)
    requires r > 0 && n > 0 && precision >= 5 && n < Pow10(precision - 4)
    ensures var x := Divide(n, r, precision);
            x.scale >= 4 && Quantize(Num(100 * x.coef, x.scale), 1) == HalfUp(1000 * n, r)
  {
    hide HalfEven, HalfUp, QuotientScale;
    var x := Divide(n, r, precision);
    var s := QuotientScale(n, r, precision, 0);
    ScaleIsLarge(n, r, precision);
    HalfEvenError(n * Pow10(s), r);
    if (2 * (1000 * n) + r) % (2 * r) == 0 {
      TieQuotientIsExact(n, r, s);
    }
    TenthsRoundAlike(n, r, x.coef, Pow10(s));
    HalfUpCancels(100 * x.coef, Pow10(s - 1), 10);
  }

  /** The quotient's coefficient has at most `precision` digits, or is the next power of ten. */
  lemma QuotientCoefficientBound(n: nat, r: nat, precision: nat)
    requires r > 0 && n > 0 && precision >= 5 && n < Pow10(precision - 4)
    ensures Divide(n, r, precision).coef <= Pow10(precision)
  {
    var s := QuotientScale(n, r, precision, 0);
    ScaleIsLarge(n, r, precision);
    HalfEvenError(n * Pow10(s), r);
    TenTimes(n, r, Pow10(s - 1), Pow10(precision - 1));
    RoundedBelow(n * Pow10(s), r, Pow10(precision), HalfEven(n * Pow10(s), r));
  }

  lemma TenTimes(n: int, r: int, x: int, y: int)
    requires n * x < r * y
    ensures n * (10 * x) <= (10 * y) * r
  {
  }

  /** The digits that the multiplication's rounding drops are zeros. */
  lemma ProductIsExact(c: nat, precision: nat, drop: nat)
    requires precision >= 5 && 0 < c <= Pow10(precision)
    requires drop > 0 && Digits(100 * c) == precision + drop
    ensures drop <= 3 && (100 * c) % Pow10(drop) == 0
  {
    SmallPowers();
    Pow10Adds(2, precision);
    Pow10Adds(3, precision);
    DigitsWithin(100 * c, precision + 3);
    var k := if drop == 3 then Pow10(precision - 1) else if drop == 2 then c else 10 * c;
    if drop == 3 {
      assert c == Pow10(precision) == 10 * Pow10(precision - 1);
    }
    assert 100 * c == k * Pow10(drop);
    MultipleHasNoRemainder(Pow10(drop), k);
  }

  /** So quantizing the rounded product is quantizing the exact one. */
  lemma TimesHundredThenQuantize(x: Num, precision: nat)
    requires precision >= 5 && x.coef <= Pow10(precision) && x.scale >= 4
    ensures Quantize(TimesHundred(x, precision), 1) == Quantize(Num(100 * x.coef, x.scale), 1)
  {
    if x.coef > 0 && Digits(100 * x.coef) > precision {
      var drop := Digits(100 * x.coef) - precision;
      ProductIsExact(x.coef, precision, drop);
      var kept := HalfEven(100 * x.coef, Pow10(drop));
      HalfEvenError(100 * x.coef, Pow10(drop));
      QuantizeDropped(kept, drop, x.scale, 1);
      assert kept * Pow10(drop) == 100 * x.coef;
    }
  }

  /** Dropping zeros does not change a quantized value. */
  lemma QuantizeDropped(kept: nat, drop: nat, scale: int, places: nat)
    requires drop + places <= scale
    ensures kept * Pow10(drop) >= 0
    ensures Quantize(Num(kept * Pow10(drop), scale), places)
         == Quantize(Num(kept, scale - drop), places)
  {
    MulLe(0, kept, Pow10(drop));
    var m := Pow10(drop);
    if drop + places < scale {
      var u := Pow10(scale - drop - places);
      Pow10Adds(drop, scale - drop - places);
      HalfUpCancels(kept, u, m);
      assert m * kept == kept * m;
    } else if drop > 0 {
      WholeQuotient(kept, m);
    }
    assert Pow10(0) == 1;
  }

  /**
   * The three roundings together are one half-up rounding of the exact percentage, for every
   * divisor and every dividend with at least four digits less than the precision. The result
   * has no more digits than the precision, so quantize does not raise.
   */
  lemma PercentageIsExactRounding(n: nat, r: nat, precision: nat)
    requires r > 0 && precision >= 5 && n < Pow10(precision - 4)
    ensures PercentageTenths(n, r, precision) == HalfUp(1000 * n, r)
    ensures PercentageTenths(n, r, precision) < Pow10(precision)
  {
    if n > 0 {
      QuotientCoefficientBound(n, r, precision);
      QuotientThenQuantize(n, r, precision);
      TimesHundredThenQuantize(Divide(n, r, precision), precision);
    } else {
      WholeQuotient(0, r);
    }
    HalfUpBound(1000 * n, r);
    Pow10Adds(4, precision - 4);
    SmallPowers();
  }

  /** At five digits of precision, a hundred times a five-digit coefficient keeps its digits. */
  lemma TimesHundredOfFiveDigits(coef: nat, scale: nat)
    requires 10_000 <= coef < 100_000
    ensures TimesHundred(Num(coef, scale), 5) == Num(coef, scale - 2)
  {
    SmallPowers();
    Pow10Adds(5, 1);
    Pow10Adds(6, 1);
    DigitsExactly(100 * coef, 7);
  }

  /** One digit less of margin is not enough: 17/11 is 154.545... percent, printed as 154.6. */
  lemma FourDigitsOfMarginAreNeeded()
    ensures 17 < Pow10(5 - 3)
    ensures HalfUp(1000 * 17, 11) == 1545
    ensures PercentageTenths(17, 11, 5) == 1546
  {
    SmallPowers();
    assert Digits(28) == 2 && Digits(11) == 2;
    assert QuotientScale(17, 11, 5, 4) == 4;
    assert QuotientScale(17, 11, 5, 3) == 4;
    assert QuotientScale(17, 11, 5, 2) == 4;
    assert QuotientScale(17, 11, 5, 1) == 4;
    assert QuotientScale(17, 11, 5, 0) == 4;
    assert Divide(17, 11, 5) == Num(15455, 4);
    TimesHundredOfFiveDigits(15455, 4);
  }
}
