/**
 * Price comparison facts and the public display's acceptance of them. Prices are positive
 * integers (scale-zero decimals); percentages are kept in tenths of a percent.
 */
module Pricing {
  import opened Common
  import opened Products
  import opened DecimalArithmetic

  datatype Period = Week | Month | Year

  datatype Direction = Lower | Equal | Higher | Unavailable

  datatype Reference =
    | Priced(period: Period, value: nat)
    | Missing(period: Period, reason: string)

  datatype Comparison = Comparison(
    period: Period,
    current: nat,
    reference: Option<nat>,
    difference: Option<int>,
    percentage: Option<int>,
    direction: Direction,
    reason: Option<string>)

  /** The precision of the default context, in which the subtraction happens. */
  const DEFAULT_PRECISION := 28

  /** Digits added to the longer operand for the division's own context. */
  const EXTRA_PRECISION := 16

  /** The reason code of a reference price that the source did not give. */
  const SOURCE_VALUE_MISSING := "SOURCE_VALUE_MISSING"

  function Abs(x: int): nat {
    if x < 0 then -x else x
  }

  function WithSign(x: int, magnitude: nat): int {
    if x < 0 then 0 - magnitude else magnitude
  }

  /** current - reference in the default context. */
  function Subtract(current: nat, reference: nat): int {
    WithSign(current - reference, FixInteger(Abs(current - reference), DEFAULT_PRECISION))
  }

  function DirectionOf(difference: int): Direction {
    if difference < 0 then Lower else if difference > 0 then Higher else Equal
  }

  function Precision(current: nat, reference: nat): nat
    requires current > 0 && reference > 0
  {
    (if Digits(current) >= Digits(reference) then Digits(current) else Digits(reference))
    + EXTRA_PRECISION
  }

  function CompareReference(current: nat, reference: Reference): Comparison
    requires current > 0 && (reference.Priced? ==> reference.value > 0)
  {
    match reference
    case Missing(period, reason) =>
      Comparison(period, current, None, None, None, Unavailable, Some(reason))
    case Priced(period, value) =>
      var difference := Subtract(current, value);
      var tenths := PercentageTenths(Abs(difference), value, Precision(current, value));
      Comparison(period, current, Some(value), Some(difference),
                 Some(WithSign(difference, tenths)), DirectionOf(difference), None)
  }

  lemma RoundingGrowsLittle(m: nat, d: nat)
    requires m < Pow10(d)
    ensures FixInteger(m, DEFAULT_PRECISION) < Pow10(d + 1)
  {
    assert Pow10(d + 1) == 10 * Pow10(d);
    if m > 0 && Digits(m) > DEFAULT_PRECISION {
      var drop := Digits(m) - DEFAULT_PRECISION;
      HalfEvenError(m, Pow10(drop));
      DigitsWithin(m, d);
      Pow10Monotone(drop, d);
    }
  }

  lemma DifferenceFits(current: nat, reference: nat)
    requires current > 0 && reference > 0
    ensures Precision(current, reference) >= 5
    ensures Abs(Subtract(current, reference)) < Pow10(Precision(current, reference) - 4)
  {
    var d := Precision(current, reference) - EXTRA_PRECISION;
    Pow10Monotone(Digits(current), d);
    Pow10Monotone(Digits(reference), d);
    RoundingGrowsLittle(Abs(current - reference), d);
    Pow10Monotone(d + 1, d + 12);
  }

  /** Half away from zero of a rational with a positive denominator. */
  function HalfAway(n: int, r: nat): int
    requires r > 0
  {
    WithSign(n, HalfUp(Abs(n), r))
  }

  predicate Representable(m: nat, precision: nat)
    requires precision >= 1
  {
    m == 0 || Digits(m) <= precision || m % Pow10(Digits(m) - precision) == 0
  }

  lemma FixIntegerExactIff(m: nat, precision: nat)
    requires precision >= 1
    ensures FixInteger(m, precision) == m <==> Representable(m, precision)
  {
    if m > 0 && Digits(m) > precision {
      var unit := Pow10(Digits(m) - precision);
      HalfEvenError(m, unit);
      if FixInteger(m, precision) == m {
        MultipleHasNoRemainder(unit, HalfEven(m, unit));
      }
    }
  }

  /** The stored difference is the true one exactly when 28 digits can hold it. */
  lemma DifferenceExactIff(current: nat, reference: nat)
    ensures Subtract(current, reference) == current - reference
       <==> Representable(Abs(current - reference), DEFAULT_PRECISION)
  {
    FixIntegerExactIff(Abs(current - reference), DEFAULT_PRECISION);
  }

  lemma OneAbove(n: nat, tens: nat, k: nat)
    requires k >= 1 && n == 10 * tens + 1 && Pow10(k) <= n < Pow10(k + 1)
    ensures !Representable(n, k)
  {
    DigitsExactly(n, k + 1);
    assert Pow10(1) == 10 * Pow10(0);
    assert n % 10 == 1;
  }

  lemma OneAbovePowerIsRounded(k: nat, power: nat)
    requires k >= 1 && power == Pow10(k)
    ensures !Representable(power + 1, k)
  {
    assert Pow10(k + 1) == 10 * power && power == 10 * Pow10(k - 1);
    OneAbove(power + 1, Pow10(k - 1), k);
  }

  /** A difference of one digit more than the context does not survive. */
  lemma LongDifferenceIsRounded(current: nat, reference: nat, k: nat)
    requires k == DEFAULT_PRECISION && current == reference + Pow10(k) + 1
    ensures Subtract(current, reference) != current - reference
  {
    hide Subtract, Representable;
    OneAbovePowerIsRounded(k, Pow10(k));
    DifferenceExactIff(current, reference);
  }

  /**
   * Whatever the sizes, the stored percentage is the exact percentage of the stored
   * difference, rounded once, half away from zero, to one decimal.
   */
  lemma PercentageIsExact(current: nat, value: nat, period: Period)
    requires current > 0 && value > 0
    ensures var c := CompareReference(current, Priced(period, value));
            c.percentage == Some(HalfAway(1000 * c.difference.value, value))
  {
    hide Subtract, PercentageTenths, HalfUp, Pow10, Digits;
    var difference := Subtract(current, value);
    DifferenceFits(current, value);
    PercentageIsExactRounding(Abs(difference), value, Precision(current, value));
    assert Abs(1000 * difference) == 1000 * Abs(difference);
  }

  predicate AtMostDigits(n: nat, k: nat) {
    n > 0 && Digits(n) <= k
  }

  lemma DifferenceDigits(a: nat, b: nat, k: nat)
    requires AtMostDigits(a, k) && AtMostDigits(b, k)
    ensures Abs(a - b) < Pow10(k)
    ensures a != b ==> AtMostDigits(Abs(a - b), k)
  {
    Pow10Monotone(Digits(a), k);
    Pow10Monotone(Digits(b), k);
    if a != b {
      DigitsWithin(Abs(a - b), k);
    }
  }

  /** For operands of at most 28 digits the fact is exact arithmetic on the prices. */
  lemma ComparisonIsExact(current: nat, value: nat, period: Period)
    requires AtMostDigits(current, DEFAULT_PRECISION) && AtMostDigits(value, DEFAULT_PRECISION)
    ensures CompareReference(current, Priced(period, value))
         == Comparison(period, current, Some(value), Some(current - value),
                       Some(HalfAway(1000 * (current - value), value)),
                       DirectionOf(current - value), None)
  {
    DifferenceDigits(current, value, DEFAULT_PRECISION);
    DifferenceExactIff(current, value);
    PercentageIsExact(current, value, period);
  }

  /** The nearest tenth of a percent; a tie goes away from zero. */
  ghost predicate NearestTenth(tenths: int, difference: int, value: nat) {
    if difference >= 0 then
      (2 * tenths - 1) * value <= 2000 * difference < (2 * tenths + 1) * value
    else
      (2 * tenths - 1) * value < 2000 * difference <= (2 * tenths + 1) * value
  }

  lemma NearestOfSize(n: nat, value: nat)
    requires value > 0
    ensures var q := HalfUp(1000 * n, value);
            (2 * q - 1) * value <= 2000 * n < (2 * q + 1) * value
  {
    HalfUpMeans(1000 * n, value, HalfUp(1000 * n, value));
  }

  lemma HalfAwayIsNearest(difference: int, value: nat)
    requires value > 0
    ensures NearestTenth(HalfAway(1000 * difference, value), difference, value)
  {
    hide HalfUp;
    NearestOfSize(Abs(difference), value);
    var q := HalfUp(1000 * Abs(difference), value);
    assert Abs(1000 * difference) == 1000 * Abs(difference);
    if difference < 0 {
      OppositeBounds(q, value);
    }
  }

  lemma OppositeBounds(q: int, value: int)
    ensures (2 * (0 - q) - 1) * value == 0 - (2 * q + 1) * value
    ensures (2 * (0 - q) + 1) * value == 0 - (2 * q - 1) * value
  {
  }

  /** What the fact of two stored prices says of the prices. */
  lemma ComparisonMeans(current: nat, value: nat, period: Period)
    requires AtMostDigits(current, DEFAULT_PRECISION) && AtMostDigits(value, DEFAULT_PRECISION)
    ensures var c := CompareReference(current, Priced(period, value));
            && c.period == period && c.current == current && c.reference == Some(value)
            && c.difference == Some(current - value)
            && c.percentage.Some? && NearestTenth(c.percentage.value, current - value, value)
            && (c.direction == Lower <==> current < value)
            && (c.direction == Equal <==> current == value)
            && (c.direction == Higher <==> current > value)
            && c.reason == None
  {
    assert current > 0 && value > 0;
    hide HalfAway, NearestTenth, CompareReference, AtMostDigits;
    ComparisonIsExact(current, value, period);
    HalfAwayIsNearest(current - value, value);
  }

  /** Prices of k digits give a difference of k digits and a percentage of k + 4. */
  lemma FitsColumns(current: nat, value: nat, period: Period, k: nat)
    requires AtMostDigits(current, k) && AtMostDigits(value, k) && k <= DEFAULT_PRECISION
    ensures var c := CompareReference(current, Priced(period, value));
            Abs(c.difference.value) < Pow10(k) && Abs(c.percentage.value) < Pow10(k + 4)
  {
    ComparisonIsExact(current, value, period);
    DifferenceDigits(current, value, k);
    PercentageBound(current - value, value, k);
  }

  lemma PercentageBound(difference: int, value: nat, k: nat)
    requires value > 0 && Abs(difference) < Pow10(k)
    ensures Abs(HalfAway(1000 * difference, value)) < Pow10(k + 4)
  {
    HalfUpBound(Abs(1000 * difference), value);
    Pow10Adds(4, k);
    SmallPowers();
  }

  // ---------------------------------------------------------------- snapshots

  predicate SnapshotValid(current: nat, references: seq<Reference>) {
    && current > 0
    && (forall i :: 0 <= i < |references| && references[i].Priced? ==> references[i].value > 0)
    && |references| == 3
    && references[0].period != references[1].period
    && references[0].period != references[2].period
    && references[1].period != references[2].period
  }

  ghost predicate HasPeriod(references: seq<Reference>, period: Period) {
    exists r :: r in references && r.period == period
  }

  /** A snapshot has a positive price, and one reference for each period, none at zero. */
  lemma SnapshotValidIff(current: nat, references: seq<Reference>)
    ensures SnapshotValid(current, references)
       <==> && current != 0
            && (forall r :: r in references && r.Priced? ==> r.value != 0)
            && |references| == 3
            && forall period :: HasPeriod(references, period)
  {
    if SnapshotValid(current, references) {
      forall period: Period
        ensures HasPeriod(references, period)
      {
        EveryPeriodPresent(current, references, period);
      }
    }
    if |references| == 3 && forall period :: HasPeriod(references, period) {
      assert references == [references[0], references[1], references[2]];
      assert HasPeriod(references, Week) && HasPeriod(references, Month)
          && HasPeriod(references, Year);
    }
  }

  /** The dictionary by period, read at one key; a later reference would win. */
  function ByPeriod(references: seq<Reference>, period: Period): (r: Reference)
    requires exists r :: r in references && r.period == period
    ensures r in references && r.period == period
  {
    var last := references[|references| - 1];
    var front := references[..|references| - 1];
    assert references == front + [last];
    if last.period == period then last else ByPeriod(front, period)
  }

  lemma EveryPeriodPresent(current: nat, references: seq<Reference>, period: Period)
    requires SnapshotValid(current, references)
    ensures exists r :: r in references && r.period == period
  {
    var a, b, c := references[0], references[1], references[2];
    assert a in references && b in references && c in references;
    assert a.period == period || b.period == period || c.period == period;
  }

  function CompareSnapshot(current: nat, references: seq<Reference>): seq<Comparison>
    requires SnapshotValid(current, references)
  {
    EveryPeriodPresent(current, references, Week);
    EveryPeriodPresent(current, references, Month);
    EveryPeriodPresent(current, references, Year);
    [CompareReference(current, ByPeriod(references, Week)),
     CompareReference(current, ByPeriod(references, Month)),
     CompareReference(current, ByPeriod(references, Year))]
  }

  lemma PeriodDetermines(current: nat, references: seq<Reference>, a: Reference, b: Reference)
    requires SnapshotValid(current, references)
    requires a in references && b in references && a.period == b.period
    ensures a == b
  {
    assert references == [references[0], references[1], references[2]];
  }

  lemma RepeatedElement(s: seq<Reference>, i: nat, j: nat)
    requires i < j < |s| && s[i] == s[j]
    ensures multiset(s)[s[i]] >= 2
  {
    assert s == s[..i] + [s[i]] + s[i + 1..j] + [s[j]] + s[j + 1..];
  }

  lemma SameElements(references: seq<Reference>, other: seq<Reference>)
    requires multiset(references) == multiset(other)
    ensures |other| == |references|
    ensures forall r :: r in other <==> r in references
  {
    assert |multiset(other)| == |other| && |multiset(references)| == |references|;
    forall r
      ensures r in other <==> r in references
    {
      assert r in multiset(other) <==> r in multiset(references);
    }
  }

  lemma ValidCountsOnce(current: nat, references: seq<Reference>, r: Reference)
    requires SnapshotValid(current, references)
    ensures multiset(references)[r] <= 1
  {
    assert references == [references[0], references[1], references[2]];
  }

  lemma PermutationIsValid(current: nat, references: seq<Reference>, other: seq<Reference>)
    requires SnapshotValid(current, references)
    requires multiset(references) == multiset(other)
    ensures SnapshotValid(current, other)
    ensures forall r :: r in other <==> r in references
  {
    SameElements(references, other);
    forall i, j | 0 <= i < j < |other|
      ensures other[i].period != other[j].period
    {
      if other[i].period == other[j].period {
        PeriodDetermines(current, references, other[i], other[j]);
        RepeatedElement(other, i, j);
        ValidCountsOnce(current, references, other[i]);
        assert false;
      }
    }
    assert forall i :: 0 <= i < |other| ==> other[i] in references;
    assert other[0].period != other[1].period && other[1].period != other[2].period;
    assert other[0].period != other[2].period;
  }

  /**
   * The output is in WEEK, MONTH, YEAR order, holds the comparison of every reference, and
   * does not depend on the order in which the references are listed.
   */
  lemma SnapshotOrderIrrelevant(current: nat, references: seq<Reference>, other: seq<Reference>)
    requires SnapshotValid(current, references)
    requires multiset(references) == multiset(other)
    ensures SnapshotValid(current, other)
    ensures CompareSnapshot(current, other) == CompareSnapshot(current, references)
    ensures forall r :: r in references ==>
              CompareReference(current, r)
              == CompareSnapshot(current, references)[
                   match r.period case Week => 0 case Month => 1 case Year => 2]
  {
    PermutationIsValid(current, references, other);
    forall period: Period
      ensures exists r :: r in references && r.period == period
      ensures exists r :: r in other && r.period == period
      ensures ByPeriod(references, period) == ByPeriod(other, period)
    {
      EveryPeriodPresent(current, references, period);
      EveryPeriodPresent(current, other, period);
      PeriodDetermines(current, references, ByPeriod(references, period), ByPeriod(other, period));
    }
    forall r | r in references
      ensures CompareReference(current, r)
           == CompareSnapshot(current, references)[
                match r.period case Week => 0 case Month => 1 case Year => 2]
    {
      PeriodDetermines(current, references, r, ByPeriod(references, r.period));
    }
  }

  // ---------------------------------------------------------------- public display

  /** SVG geometry in tenths of a unit on a bar from 0 to 1000. */
  datatype Microbar = Microbar(x: int, width: int, capped: bool, capX: int, isEqual: bool)

  datatype Display = NoValue | Shown(bar: Microbar)

  const BAR_CENTRE := 500
  const BAR_CAP := 500

  function ComparisonMicrobar(percentage: int, direction: Direction): Result<Microbar, string> {
    if direction != DirectionOf(percentage) then
      Err("Comparison direction does not match the signed percentage")
    else
      var magnitude := if Abs(percentage) < BAR_CAP then Abs(percentage) else BAR_CAP;
      var x := if direction == Lower then BAR_CENTRE - magnitude else BAR_CENTRE;
      var capX :=
        if direction == Lower then x
        else if direction == Higher then BAR_CENTRE + magnitude
        else BAR_CENTRE;
      Ok(Microbar(x, magnitude, Abs(percentage) > BAR_CAP, capX, direction == Equal))
  }

  /** The stored status and date of a reference; only an unavailable date is published. */
  datatype ReferenceDate = ReferenceDate(unavailable: bool, date: Option<int>)

  predicate Undated(date: ReferenceDate) {
    date.unavailable && date.date.None?
  }

  function ComparisonContext(reference: Reference, date: ReferenceDate, fact: Comparison)
    : Result<Display, string>
  {
    if !Undated(date) then Err("Published comparison reference date is malformed.")
    else ComparisonDisplay(reference, fact)
  }

  function ComparisonDisplay(reference: Reference, fact: Comparison): Result<Display, string> {
    match reference
    case Missing(_, reason) =>
      if reason != SOURCE_VALUE_MISSING || fact.direction != Unavailable
         || fact.difference.Some? || fact.percentage.Some? then
        Err("Published unavailable comparison is malformed.")
      else Ok(NoValue)
    case Priced(_, _) =>
      if fact.difference.None? || fact.percentage.None? then
        Err("An available reference requires a complete change fact.")
      else
        var difference, percentage := fact.difference.value, fact.percentage.value;
        if || (fact.direction == Lower && !(difference < 0 && percentage < 0))
           || (fact.direction == Equal && !(difference == 0 && percentage == 0))
           || (fact.direction == Higher && !(difference > 0 && percentage > 0))
           || fact.direction == Unavailable
        then Err("Published comparison direction is malformed.")
        else
          match ComparisonMicrobar(percentage, fact.direction)
          case Err(_) => Err("Published comparison numeric values are malformed.")
          case Ok(bar) => Ok(Shown(bar))
  }

  /** The direction is that of the change and the percentage alike. */
  ghost predicate SignsAgree(direction: Direction, difference: int, percentage: int) {
    match direction
    case Lower => difference < 0 && percentage < 0
    case Equal => difference == 0 && percentage == 0
    case Higher => difference > 0 && percentage > 0
    case Unavailable => false
  }

  /** The bar reaches from the centre towards the percentage, half the width at most. */
  ghost predicate BarOf(bar: Microbar, percentage: int) {
    if percentage < -500 then bar == Microbar(0, 500, true, 0, false)
    else if percentage < 0 then
      bar == Microbar(500 + percentage, 0 - percentage, false, 500 + percentage, false)
    else if percentage == 0 then bar == Microbar(500, 0, false, 500, true)
    else if percentage <= 500 then
      bar == Microbar(500, percentage, false, 500 + percentage, false)
    else bar == Microbar(500, 500, true, 1000, false)
  }

  lemma MicrobarMeans(percentage: int, direction: Direction)
    ensures var bar := ComparisonMicrobar(percentage, direction);
            && (bar.Ok? <==> SignsAgree(direction, percentage, percentage))
            && (bar.Ok? ==> BarOf(bar.value, percentage))
  {
  }

  /** The numbers of a fact that the display accepts beside an available price. */
  ghost predicate NumbersAgree(fact: Comparison) {
    && fact.difference.Some? && fact.percentage.Some?
    && SignsAgree(fact.direction, fact.difference.value, fact.percentage.value)
  }

  lemma PricedDisplay(reference: Reference, fact: Comparison)
    requires reference.Priced?
    ensures var shown := ComparisonDisplay(reference, fact);
            && (shown.Ok? <==> NumbersAgree(fact))
            && (shown.Ok? ==> shown.value.Shown?
                              && BarOf(shown.value.bar, fact.percentage.value))
  {
    hide ComparisonMicrobar, BarOf;
    if fact.percentage.Some? {
      MicrobarMeans(fact.percentage.value, fact.direction);
    }
  }

  /** What the display accepts of any stored reference and fact, and what it then shows. */
  lemma DisplayMeans(reference: Reference, date: ReferenceDate, fact: Comparison)
    ensures var shown := ComparisonContext(reference, date, fact);
            && (shown.Ok? <==>
                  && date.unavailable && date.date == None
                  && if reference.Missing? then
                       && reference.reason == "SOURCE_VALUE_MISSING"
                       && fact.direction == Unavailable
                       && fact.difference == None && fact.percentage == None
                     else NumbersAgree(fact))
            && (shown.Ok? ==>
                  if reference.Missing? then shown.value.NoValue?
                  else shown.value.Shown? && BarOf(shown.value.bar, fact.percentage.value))
  {
    hide BarOf, NumbersAgree;
    if reference.Priced? {
      hide ComparisonDisplay;
      PricedDisplay(reference, fact);
    }
  }

  lemma HalfUpZeroIff(n: nat, r: nat)
    requires r > 0
    ensures HalfUp(1000 * n, r) == 0 <==> 2000 * n < r
  {
    HalfUpMeans(1000 * n, r, 0);
  }

  /**
   * The display refuses a computed fact of an undated reference exactly when the change is
   * nonzero but below a twentieth of a percent, because its percentage then prints as zero.
   */
  lemma DisplayAcceptsIff(current: nat, value: nat, period: Period, date: ReferenceDate)
    requires AtMostDigits(current, DEFAULT_PRECISION) && AtMostDigits(value, DEFAULT_PRECISION)
    ensures var reference := Priced(period, value);
            ComparisonContext(reference, date, CompareReference(current, reference)).Ok?
            <==> Undated(date) && (current == value || 2000 * Abs(current - value) >= value)
  {
    ComparisonIsExact(current, value, period);
    SignOfPercentage(current - value, value);
    var c := CompareReference(current, Priced(period, value));
    AcceptsMatchingSigns(Priced(period, value), c, current - value, c.percentage.value);
  }

  lemma AcceptsMatchingSigns(
    reference: Reference, fact: Comparison, difference: int, percentage: int)
    requires reference.Priced? && fact.difference == Some(difference)
    requires fact.percentage == Some(percentage) && fact.direction == DirectionOf(difference)
    ensures ComparisonDisplay(reference, fact).Ok?
       <==> DirectionOf(percentage) == DirectionOf(difference)
  {
  }

  lemma SignOfPercentage(difference: int, value: nat)
    requires value > 0
    ensures HalfAway(1000 * difference, value) == 0 <==> 2000 * Abs(difference) < value
    ensures HalfAway(1000 * difference, value) > 0 ==> difference > 0
    ensures HalfAway(1000 * difference, value) < 0 ==> difference < 0
  {
    HalfUpZeroIff(Abs(difference), value);
    assert Abs(1000 * difference) == 1000 * Abs(difference);
  }

  /** A change of one unit on a price of 2001 is the smallest kind of refused fact. */
  lemma SmallChangeIsRefused()
    ensures var reference := Priced(Week, 2001);
            ComparisonContext(reference, ReferenceDate(true, None),
                              CompareReference(2002, reference)).Err?
  {
    SmallPowers();
    DigitsWithin(2001, 4);
    DigitsWithin(2002, 4);
    DisplayAcceptsIff(2002, 2001, Week, ReferenceDate(true, None));
  }

  /** An undated missing reference is displayed without a value, for its one reason code. */
  lemma MissingIsAccepted(current: nat, period: Period, reason: string, date: ReferenceDate)
    requires current > 0
    ensures var reference := Missing(period, reason);
            ComparisonContext(reference, date, CompareReference(current, reference))
            == if !Undated(date) then Err("Published comparison reference date is malformed.")
               else if reason == SOURCE_VALUE_MISSING then Ok(NoValue)
               else Err("Published unavailable comparison is malformed.")
  {
  }

  /** On accepted facts the bar stays inside, touches the centre and points the right way. */
  lemma MicrobarGeometry(reference: Reference, date: ReferenceDate, fact: Comparison)
    requires ComparisonContext(reference, date, fact).Ok? && reference.Priced?
    ensures var bar := ComparisonContext(reference, date, fact).value.bar;
            && 0 <= bar.x <= bar.x + bar.width <= 1000
            && (bar.x == 500 || bar.x + bar.width == 500)
            && (bar.width == 0 <==> fact.difference.value == 0)
            && (bar.isEqual <==> fact.difference.value == 0)
            && (bar.capX < 500 <==> fact.difference.value < 0)
            && (bar.capX > 500 <==> fact.difference.value > 0)
            && (bar.capX == bar.x || bar.capX == bar.x + bar.width)
            && (!bar.capped ==> bar.capX - 500 == fact.percentage.value)
            && (bar.capped ==> bar.width == 500)
  {
  }
}
