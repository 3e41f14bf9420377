/**
 * Sealed bundles at the very start of the calendar, for which both reads fail: the 31-day
 * window reaches before day 1, and one stored month lies in year 0.
 */
module HistoricalEdges {
  import opened Common
  import opened Months
  import opened HistoricalFacts
  import opened HistoricalSeal
  import opened HistoricalDailyRead
  import opened HistoricalHistoryRead

  /** The i-th of 37 months that start in the given month of year 0. */
  function EarlyMonth(start: int, i: nat): MonthlyFact {
    MonthlyFact(0, 0, MonthValue(start + i), 100, 100, 100)
  }

  function EarlySources(start: int): Sources {
    Sources(
      MonthlySource(seq(37, i requires 0 <= i < 37 => EarlyMonth(start, i)),
                    MonthValue(start), MonthValue(start + 36), true, "m", 37),
      RegionalSource([RegionalFact(0, 0, 1, 100, 100, 100)], 1, 1, true, "m", 1),
      MarketSource([MarketFact(0, 0, 0, 0, 1, 100)], 1, 1, true, "m", 1),
      map[0 := "m"])
  }

  function EarlyBundle(start: int): Bundle {
    var src := EarlySources(start);
    Bundle(src.monthly.facts, src.regional.facts, src.market.facts, MonthValue(start + 36), 1, 1, "m")
  }

  lemma EarlyMonthNumber(start: int, i: nat)
    requires 0 <= start <= 11 && i < 37
    ensures YearMonthPattern(EarlyMonth(start, i).yearMonth)
    ensures MonthNumber(EarlyMonth(start, i).yearMonth) == start + i
    ensures WithinMonths(EarlyMonth(start, i).yearMonth, MonthValue(start), MonthValue(start + 36))
  {
    hide MonthValue, MonthNumber, YearMonthPattern;
    ValueThenNumber(start + i);
    ValueThenNumber(start);
    ValueThenNumber(start + 36);
    TextOrderIsMonthOrder(MonthValue(start + i), MonthValue(start));
    TextOrderIsMonthOrder(MonthValue(start + 36), MonthValue(start + i));
  }

  lemma EarlyMonthlyRows(start: int)
    requires 0 <= start <= 11
    ensures var monthly := EarlySources(start).monthly;
            && (forall f :: f in monthly.facts ==> MonthlyStored(f, monthly) && f.series == 0)
            && MonthlyUnique(monthly.facts)
  {
    var facts := EarlySources(start).monthly.facts;
    forall i | 0 <= i < |facts|
      ensures YearMonthPattern(facts[i].yearMonth) && MonthNumber(facts[i].yearMonth) == start + i
      ensures WithinMonths(facts[i].yearMonth, MonthValue(start), MonthValue(start + 36))
      ensures facts[i].low == facts[i].mean == facts[i].high == 100 && facts[i].series == 0
    {
      EarlyMonthNumber(start, i);
    }
    forall i, j | 0 <= i < j < |facts|
      ensures facts[i].yearMonth != facts[j].yearMonth
    {
      assert MonthNumber(facts[i].yearMonth) != MonthNumber(facts[j].yearMonth);
    }
  }

  lemma EarlyRowsAreStored(start: int)
    requires 0 <= start <= 11
    ensures Stored(EarlySources(start))
  {
    EarlyMonthlyRows(start);
    ValueThenNumber(start);
    ValueThenNumber(start + 36);
  }

  lemma EarlyMonthPresent(start: int, facts: seq<MonthlyFact>, i: nat)
    requires facts == EarlySources(start).monthly.facts && i < 37
    ensures HasMonthly(facts, 0, 0, facts[i].yearMonth)
  {
    assert facts[i] in facts;
  }

  lemma EarlyExpected(start: int, facts: seq<MonthlyFact>, expected: seq<string>, i: nat)
    requires facts == EarlySources(start).monthly.facts
    requires expected == ExpectedMonths(start + 36, 36) && i < 36
    ensures expected[i] == facts[i + 1].yearMonth
  {
    hide MonthValue;
    var number := start + 36 - 36 + 1 + i;
    assert number == start + (i + 1);
  }

  lemma EarlyMonthsCovered(start: int, last: string)
    requires 0 <= start <= 11 && last == MonthValue(start + 36)
    ensures YearMonthPattern(last)
    ensures CoversMonths(EarlySources(start).monthly.facts, 0, 0, last, 36)
  {
    ValueThenNumber(start + 36);
    var facts, expected := EarlySources(start).monthly.facts, ExpectedMonths(start + 36, 36);
    forall m | m in expected
      ensures HasMonthly(facts, 0, 0, m)
    {
      var i :| 0 <= i < 36 && expected[i] == m;
      EarlyExpected(start, facts, expected, i);
      EarlyMonthPresent(start, facts, i + 1);
    }
  }

  lemma EarlySeries(start: int)
    requires 0 <= start <= 11
    ensures MonthlySeries(EarlySources(start).monthly.facts) == {0}
    ensures RegionalSeries(EarlySources(start).regional.facts) == {0}
    ensures MarketSeries(EarlySources(start).market.facts) == {0}
  {
    EarlyMonthlyRows(start);
    var facts := EarlySources(start).monthly.facts;
    assert facts[0] in facts;
  }

  lemma EarlySharedDate(
    start: int, regional: seq<RegionalFact>, markets: seq<MarketFact>)
    requires 0 <= start <= 11
    requires regional == EarlySources(start).regional.facts
    requires markets == EarlySources(start).market.facts
    ensures Shared(regional, markets, 0, 0, 1)
    ensures forall d :: SharedOn(regional, markets, d) <==> d == 1
  {
    var f, g := regional[0], markets[0];
    assert f in regional && g in markets;
    assert Shared(regional, markets, 0, 0, 1);
    assert SharedOn(regional, markets, 1);
  }

  lemma EarlyBundleIsSealed(start: int)
    requires 0 <= start <= 11
    ensures SealedFrom(EarlyBundle(start), EarlySources(start))
  {
    var src := EarlySources(start);
    EarlyRowsAreStored(start);
    EarlySeries(start);
    EarlyMonthsCovered(start, src.monthly.monthMax);
    EarlySharedDate(start, src.regional.facts, src.market.facts);
    assert HasCompleteRegion(src.monthly.facts, 0, src.monthly.monthMax, 36);
    assert SharesSomeDate(src.regional.facts, src.market.facts, 0);
    assert Complete(src.monthly.facts, src.regional.facts, src.market.facts,
                    src.monthly.monthMax);
  }

  /** Both of the reads' conditions on a sealed bundle are needed. */
  lemma EarlyReadsFail(start: int)
    requires 0 <= start <= 11
    ensures SealedFrom(EarlyBundle(start), EarlySources(start))
    ensures 0 in MonthlySeries(EarlyBundle(start).monthly)
    ensures RegionsContext(EarlyBundle(start), 0, None) == Err(Overflow)
    ensures var history := SelectHistory(SeriesFacts(EarlyBundle(start), 0), EarlyBundle(start).monthMax,
                                         None, 36);
            history.Err? && history.error.Malformed?
  {
    EarlyBundleIsSealed(start);
    EarlySeries(start);
    var f := EarlyMonth(start, 0);
    assert EarlyBundle(start).monthly[0] == f && f in EarlyBundle(start).monthly;
    EarlyMonthNumber(start, 0);
    FormatsIsPatternFromYearOne(f.yearMonth);
    assert !FromYearOne(EarlyBundle(start), 0);
    ProblemIffYearZero(EarlyBundle(start), EarlySources(start), 0);
  }
}
