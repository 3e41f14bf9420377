/**
 * The three typed fact tables of a historical bundle and what their constraints guarantee.
 * Prices are integers in hundredths of a won, dates are day numbers starting at 1.
 */
module HistoricalFacts {
  import opened Common
  import opened Months
  import opened TextOrder
  import opened HistoryChart

  datatype MonthlyFact = MonthlyFact(
    series: Uuid, region: Uuid, yearMonth: string, mean: int, low: int, high: int)

  datatype RegionalFact = RegionalFact(
    series: Uuid, region: Uuid, date: int, mean: int, low: int, high: int)

  datatype MarketFact = MarketFact(
    series: Uuid, region: Uuid, market: Uuid, marketRegion: Uuid, date: int, price: int)

  /** A reviewed collection with its facts, in whatever order the table returns them. */
  datatype MonthlySource = MonthlySource(
    facts: seq<MonthlyFact>, monthMin: string, monthMax: string,
    reviewed: bool, manifest: string, accepted: nat)

  datatype RegionalSource = RegionalSource(
    facts: seq<RegionalFact>, dateMin: int, dateMax: int,
    reviewed: bool, manifest: string, accepted: nat)

  datatype MarketSource = MarketSource(
    facts: seq<MarketFact>, dateMin: int, dateMax: int,
    reviewed: bool, manifest: string, accepted: nat)

  datatype Sources = Sources(
    monthly: MonthlySource, regional: RegionalSource, market: MarketSource,
    seriesManifest: map<Uuid, string>)

  // ---------------------------------------------------------------- table constraints

  predicate RangeStored(low: int, mean: int, high: int) {
    0 < low <= mean <= high < PRICE_LIMIT
  }

  predicate WithinMonths(yearMonth: string, first: string, last: string) {
    !TextLess(yearMonth, first) && !TextLess(last, yearMonth)
  }

  predicate MonthlyStored(f: MonthlyFact, source: MonthlySource) {
    && YearMonthPattern(f.yearMonth)
    && WithinMonths(f.yearMonth, source.monthMin, source.monthMax)
    && RangeStored(f.low, f.mean, f.high)
  }

  predicate RegionalStored(f: RegionalFact, source: RegionalSource) {
    && 1 <= source.dateMin <= f.date <= source.dateMax
    && RangeStored(f.low, f.mean, f.high)
  }

  predicate MarketStored(f: MarketFact, source: MarketSource) {
    && 1 <= source.dateMin <= f.date <= source.dateMax
    && 0 < f.price < PRICE_LIMIT
    && f.marketRegion == f.region
  }

  ghost predicate MonthlyUnique(rows: seq<MonthlyFact>) {
    forall i, j :: 0 <= i < j < |rows| ==>
      !(rows[i].series == rows[j].series && rows[i].region == rows[j].region
        && rows[i].yearMonth == rows[j].yearMonth)
  }

  ghost predicate RegionalUnique(rows: seq<RegionalFact>) {
    forall i, j :: 0 <= i < j < |rows| ==>
      !(rows[i].series == rows[j].series && rows[i].region == rows[j].region
        && rows[i].date == rows[j].date)
  }

  /** Column formats, windows, foreign keys and unique keys of the stored rows. */
  ghost predicate Stored(src: Sources) {
    && YearMonthPattern(src.monthly.monthMin) && YearMonthPattern(src.monthly.monthMax)
    && (forall f :: f in src.monthly.facts ==>
          MonthlyStored(f, src.monthly) && f.series in src.seriesManifest)
    && (forall f :: f in src.regional.facts ==> RegionalStored(f, src.regional))
    && (forall f :: f in src.market.facts ==> MarketStored(f, src.market))
    && MonthlyUnique(src.monthly.facts)
    && RegionalUnique(src.regional.facts)
  }

  // ---------------------------------------------------------------- keys

  function MonthlySeries(rows: seq<MonthlyFact>): set<Uuid> {
    set f | f in rows :: f.series
  }

  function RegionalSeries(rows: seq<RegionalFact>): set<Uuid> {
    set f | f in rows :: f.series
  }

  function MarketSeries(rows: seq<MarketFact>): set<Uuid> {
    set f | f in rows :: f.series
  }

  ghost predicate HasMonthly(rows: seq<MonthlyFact>, series: Uuid, region: Uuid, month: string) {
    exists f :: f in rows && f.series == series && f.region == region && f.yearMonth == month
  }

  ghost predicate HasRegional(rows: seq<RegionalFact>, series: Uuid, region: Uuid, date: int) {
    exists f :: f in rows && f.series == series && f.region == region && f.date == date
  }

  ghost predicate HasMarket(rows: seq<MarketFact>, series: Uuid, region: Uuid, date: int) {
    exists f :: f in rows && f.series == series && f.region == region && f.date == date
  }

  /** A region and date that both daily tables know for a series. */
  ghost predicate Shared(
    regional: seq<RegionalFact>, markets: seq<MarketFact>, series: Uuid, region: Uuid, date: int)
  {
    HasRegional(regional, series, region, date) && HasMarket(markets, series, region, date)
  }

  /** The rows of one region cover the given number of months up to the last one. */
  ghost predicate CoversMonths(
    rows: seq<MonthlyFact>, series: Uuid, region: Uuid, monthMax: string, count: nat)
    requires |monthMax| == 6 && AllDigits(monthMax)
  {
    forall m :: m in ExpectedMonths(MonthNumber(monthMax), count) ==>
      HasMonthly(rows, series, region, m)
  }
}
