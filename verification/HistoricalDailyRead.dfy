/** The regional range page, the market page and the market recovery of one active bundle. */
module HistoricalDailyRead {
  import opened Common
  import opened HistoricalFacts
  import opened HistoricalSeal
  import opened HistoryChart
  import opened HistoryLedger

  const HISTORICAL_PAGE_SIZE := 30

  /** An integrity error, a refused parameter, a presentation error or a date before day 1. */
  datatype ReadError = Integrity(text: string) | Parameter(text: string) | Malformed(text: string) | Overflow

  // ---------------------------------------------------------------- queries

  function Filter<T(!new)>(p: T -> bool, s: seq<T>): (r: seq<T>)
    ensures forall x :: x in r <==> x in s && p(x)
  {
    if s == [] then []
    else
      var front, last := s[..|s| - 1], s[|s| - 1];
      assert s == front + [last];
      Filter(p, front) + (if p(last) then [last] else [])
  }

  /** A filter keeps every copy of what it keeps. */
  lemma {:induction false} FilterCounts<T(!new)>(p: T -> bool, s: seq<T>, x: T)
    ensures multiset(Filter(p, s))[x] == if p(x) then multiset(s)[x] else 0
  {
    if s != [] {
      var front, last := s[..|s| - 1], s[|s| - 1];
      FilterCounts(p, front, x);
      assert s == front + [last];
    }
  }

  predicate Descending(dates: seq<int>) {
    forall i, j :: 0 <= i < j < |dates| ==> dates[i] > dates[j]
  }

  function InsertDate(d: int, dates: seq<int>): (r: seq<int>)
    requires Descending(dates)
    ensures Descending(r)
    ensures forall x :: x in r <==> x == d || x in dates
  {
    if dates == [] then [d]
    else if d == dates[0] then dates
    else if d > dates[0] then [d] + dates
    else
      var rest := InsertDate(d, dates[1..]);
      assert dates == [dates[0]] + dates[1..];
      assert forall i :: 0 <= i < |rest| ==> rest[i] in rest;
      [dates[0]] + rest
  }

  /** The different dates, newest first. */
  function SortedDescending(dates: seq<int>): (r: seq<int>)
    ensures Descending(r)
    ensures forall x :: x in r <==> x in dates
  {
    if dates == [] then []
    else
      assert dates == [dates[0]] + dates[1..];
      InsertDate(dates[0], SortedDescending(dates[1..]))
  }

  predicate InWindow(b: Bundle, date: int) {
    b.dateMax - 30 <= date <= b.dateMax
  }

  function RegionalInWindow(b: Bundle, series: Uuid): seq<RegionalFact> {
    Filter((f: RegionalFact) => f.series == series && InWindow(b, f.date), b.regional)
  }

  function MarketsInWindow(b: Bundle, series: Uuid): seq<MarketFact> {
    Filter((f: MarketFact) => f.series == series && InWindow(b, f.date), b.markets)
  }

  function MarketKeys(b: Bundle, series: Uuid): set<(Uuid, int)> {
    set f | f in MarketsInWindow(b, series) :: (f.region, f.date)
  }

  /** The dates offered on the regional page, newest first. */
  function DateOptions(b: Bundle, series: Uuid): seq<int> {
    SortedDescending(Column(
      (f: RegionalFact) => f.date,
      Filter((f: RegionalFact) => (f.region, f.date) in MarketKeys(b, series),
             RegionalInWindow(b, series))))
  }

  // ---------------------------------------------------------------- the regional page

  datatype RegionRow = RegionRow(fact: RegionalFact, meter: Meter, marketAvailable: bool)

  datatype RegionsPage = RegionsPage(dates: seq<int>, selected: int, rows: seq<RegionRow>)

  predicate RangeValid(f: RegionalFact) {
    f.low > 0 && f.mean > 0 && f.high > 0 && f.low <= f.mean <= f.high
  }

  function LeastLow(rows: seq<RegionalFact>): (m: int)
    requires rows != []
    ensures forall f :: f in rows ==> m <= f.low
    ensures exists f :: f in rows && f.low == m
  {
    Least(Column((f: RegionalFact) => f.low, rows))
  }

  function GreatestHigh(rows: seq<RegionalFact>): (m: int)
    requires rows != []
    ensures forall f :: f in rows ==> f.high <= m
    ensures exists f :: f in rows && f.high == m
  {
    Greatest(Column((f: RegionalFact) => f.high, rows))
  }

  function MeterOf(f: RegionalFact, low: int, high: int): Result<Meter, string> {
    RangeMeter(f.low, f.mean, f.high, low, high)
  }

  function RegionRows(facts: seq<RegionalFact>, date: int, keys: set<(Uuid, int)>)
    : Result<seq<RegionRow>, ReadError>
    requires facts != []
  {
    var low, high := LeastLow(facts), GreatestHigh(facts);
    if exists i :: 0 <= i < |facts| && !RangeValid(facts[i]) then
      Err(Integrity("Published provider ranges are malformed."))
    else if exists i :: 0 <= i < |facts| && MeterOf(facts[i], low, high).Err? then
      Err(Malformed("Range-meter values are not ordered"))
    else
      Ok(seq(|facts|, i requires 0 <= i < |facts| && MeterOf(facts[i], low, high).Ok? =>
        RegionRow(facts[i], MeterOf(facts[i], low, high).value,
                  (facts[i].region, date) in keys)))
  }

  /** The page from the results of the two window queries. */
  function RegionsPageFrom(
    dates: seq<int>, regional: seq<RegionalFact>, keys: set<(Uuid, int)>, selected: Option<int>)
    : Result<RegionsPage, ReadError>
  {
    if dates == [] then
      Err(Integrity("The published series has no shared daily survey date."))
    else
      var date := if selected.Some? then selected.value else dates[0];
      if date !in dates then Err(Parameter("The selected survey date is not available."))
      else
        var facts := Filter((f: RegionalFact) => f.date == date, regional);
        if facts == [] then
          Err(Integrity("The selected published date has no regional facts."))
        else
          match RegionRows(facts, date, keys)
          case Err(e) => Err(e)
          case Ok(rows) => Ok(RegionsPage(dates, date, rows))
  }

  function RegionsContext(b: Bundle, series: Uuid, selected: Option<int>)
    : Result<RegionsPage, ReadError>
  {
    if b.dateMax - 30 < 1 then Err(Overflow)
    else
      RegionsPageFrom(DateOptions(b, series), RegionalInWindow(b, series), MarketKeys(b, series),
                      selected)
  }

  ghost predicate SharedDate(b: Bundle, series: Uuid, date: int) {
    exists region :: Shared(b.regional, b.markets, series, region, date)
  }

  ghost predicate DatesExact(b: Bundle, series: Uuid, dates: seq<int>) {
    && Descending(dates)
    && (forall d :: d in dates <==> SharedDate(b, series, d))
    && (forall d :: d in dates ==> InWindow(b, d))
  }

  ghost predicate FactsExact(b: Bundle, series: Uuid, regional: seq<RegionalFact>) {
    && RegionalUnique(regional)
    && (forall f :: f in regional ==> RangeStored(f.low, f.mean, f.high))
    && (forall f :: f in regional <==> f in b.regional && f.series == series && InWindow(b, f.date))
  }

  ghost predicate KeysExact(b: Bundle, series: Uuid, keys: set<(Uuid, int)>) {
    forall region: Uuid, date :: (region, date) in keys
      <==> HasMarket(b.markets, series, region, date) && InWindow(b, date)
  }

  /** What a sealed bundle guarantees about the two window queries of a series. */
  ghost predicate QueriesExact(
    b: Bundle, series: Uuid, dates: seq<int>, regional: seq<RegionalFact>,
    keys: set<(Uuid, int)>)
  {
    DatesExact(b, series, dates) && FactsExact(b, series, regional) && KeysExact(b, series, keys)
  }

  lemma MarketKeyIff(b: Bundle, series: Uuid, region: Uuid, date: int)
    ensures (region, date) in MarketKeys(b, series)
       <==> HasMarket(b.markets, series, region, date) && InWindow(b, date)
  {
    if HasMarket(b.markets, series, region, date) && InWindow(b, date) {
      var f :| f in b.markets && f.series == series && f.region == region && f.date == date;
      assert f in MarketsInWindow(b, series);
    }
  }

  lemma DateOptionIff(b: Bundle, series: Uuid, date: int)
    ensures date in DateOptions(b, series)
       <==> exists f :: f in RegionalInWindow(b, series) && f.date == date
                        && (f.region, f.date) in MarketKeys(b, series)
  {
    var rows := Filter((f: RegionalFact) => (f.region, f.date) in MarketKeys(b, series),
                       RegionalInWindow(b, series));
    RegionalColumnIff(rows, date);
  }

  lemma RegionalColumnIff(rows: seq<RegionalFact>, date: int)
    ensures date in SortedDescending(Column((f: RegionalFact) => f.date, rows))
       <==> exists f :: f in rows && f.date == date
  {
    ColumnMembers((f: RegionalFact) => f.date, rows, date);
  }

  /** The 31-day window hides no shared date of a sealed bundle. */
  lemma DateOptionsAreSharedDates(b: Bundle, src: Sources, series: Uuid, date: int)
    requires SealedFrom(b, src)
    ensures date in DateOptions(b, series) <==> SharedDate(b, series, date)
    ensures SharedDate(b, series, date) ==> InWindow(b, date)
  {
    DateOptionIff(b, series, date);
    if date in DateOptions(b, series) {
      var f :| f in RegionalInWindow(b, series) && f.date == date
               && (f.region, f.date) in MarketKeys(b, series);
      MarketKeyIff(b, series, f.region, date);
      assert HasRegional(b.regional, series, f.region, date);
      assert Shared(b.regional, b.markets, series, f.region, date);
    }
    if SharedDate(b, series, date) {
      var region :| Shared(b.regional, b.markets, series, region, date);
      SharedDatesInWindow(b, src, series, region, date);
      MarketKeyIff(b, series, region, date);
      var f :| f in b.regional && f.series == series && f.region == region && f.date == date;
      assert f in RegionalInWindow(b, series);
    }
  }

  lemma {:induction false} FilterKeepsUnique(p: RegionalFact -> bool, rows: seq<RegionalFact>)
    requires RegionalUnique(rows)
    ensures RegionalUnique(Filter(p, rows))
  {
    if rows != [] {
      var front, last := rows[..|rows| - 1], rows[|rows| - 1];
      FilterKeepsUnique(p, front);
      var kept := Filter(p, front);
      forall i | 0 <= i < |kept|
        ensures !(kept[i].series == last.series && kept[i].region == last.region
                  && kept[i].date == last.date)
      {
        assert kept[i] in front;
        var k :| 0 <= k < |front| && front[k] == kept[i];
        assert rows[k] == kept[i];
      }
    }
  }

  lemma SealedDatesAreExact(b: Bundle, src: Sources, series: Uuid)
    requires SealedFrom(b, src)
    ensures DatesExact(b, series, DateOptions(b, series))
  {
    var dates := DateOptions(b, series);
    forall d
      ensures d in dates <==> SharedDate(b, series, d)
      ensures d in dates ==> InWindow(b, d)
    {
      DateOptionsAreSharedDates(b, src, series, d);
    }
  }

  lemma SealedFactsAreExact(b: Bundle, src: Sources, series: Uuid)
    requires SealedFrom(b, src)
    ensures FactsExact(b, series, RegionalInWindow(b, series))
  {
    FilterKeepsUnique((f: RegionalFact) => f.series == series && InWindow(b, f.date), b.regional);
    forall f | f in RegionalInWindow(b, series)
      ensures RangeStored(f.low, f.mean, f.high)
    {
      assert RegionalStored(f, src.regional);
    }
  }

  lemma WindowKeysAreExact(b: Bundle, series: Uuid)
    ensures KeysExact(b, series, MarketKeys(b, series))
  {
    forall region: Uuid, date
      ensures (region, date) in MarketKeys(b, series)
         <==> HasMarket(b.markets, series, region, date) && InWindow(b, date)
    {
      MarketKeyIff(b, series, region, date);
    }
  }

  ghost predicate RowShows(b: Bundle, series: Uuid, date: int, row: RegionRow) {
    && row.fact in b.regional && row.fact.series == series && row.fact.date == date
    && 0 <= row.meter.minimum <= row.meter.mean <= row.meter.maximum <= 10000
    && (row.marketAvailable <==> HasMarket(b.markets, series, row.fact.region, date))
  }

  /** The scale runs from the least low to the greatest high price of the rows. */
  ghost predicate ScaleOfRows(rows: seq<RegionRow>, low: int, high: int) {
    && (forall i :: 0 <= i < |rows| ==> low <= rows[i].fact.low && rows[i].fact.high <= high)
    && (exists i :: 0 <= i < |rows| && rows[i].fact.low == low)
    && (exists i :: 0 <= i < |rows| && rows[i].fact.high == high)
  }

  /** Every meter shows the exact places of its row's prices on the rows' common scale. */
  ghost predicate MetersShow(rows: seq<RegionRow>) {
    exists low, high ::
      && ScaleOfRows(rows, low, high)
      && forall i :: 0 <= i < |rows| ==>
           MeterShows(rows[i].meter, rows[i].fact.low, rows[i].fact.mean, rows[i].fact.high,
                      low, high)
  }

  /** One row per region with a fact on the date, and nothing else. */
  ghost predicate RowsShow(b: Bundle, series: Uuid, date: int, rows: seq<RegionRow>) {
    && MetersShow(rows)
    && (forall f :: f in b.regional && f.series == series && f.date == date ==>
          exists i :: 0 <= i < |rows| && rows[i].fact == f)
    && (forall i :: 0 <= i < |rows| ==> RowShows(b, series, date, rows[i]))
    && (forall i, j :: 0 <= i < j < |rows| ==> rows[i].fact.region != rows[j].fact.region)
  }

  lemma MeterOfRow(facts: seq<RegionalFact>, f: RegionalFact)
    requires f in facts && forall g :: g in facts ==> RangeStored(g.low, g.mean, g.high)
    ensures var m := MeterOf(f, LeastLow(facts), GreatestHigh(facts));
            && m.Ok? && 0 <= m.value.minimum <= m.value.mean <= m.value.maximum <= 10000
            && MeterShows(m.value, f.low, f.mean, f.high, LeastLow(facts), GreatestHigh(facts))
    ensures RangeValid(f)
  {
    var low, high := LeastLow(facts), GreatestHigh(facts);
    assert 0 < low <= f.low && f.high <= high < PRICE_LIMIT;
    MeterGeometry(f.low, f.mean, f.high, low, high);
    RangeMeterIsExact(f.low, f.mean, f.high, low, high);
  }

  /** A row as built from its fact and the page's scale. */
  ghost predicate BuiltRow(
    f: RegionalFact, date: int, keys: set<(Uuid, int)>, low: int, high: int, row: RegionRow)
  {
    && row.fact == f
    && (row.marketAvailable <==> (f.region, date) in keys)
    && 0 <= row.meter.minimum <= row.meter.mean <= row.meter.maximum <= 10000
    && MeterShows(row.meter, f.low, f.mean, f.high, low, high)
  }

  lemma RowsAreBuilt(facts: seq<RegionalFact>, date: int, keys: set<(Uuid, int)>)
    requires facts != [] && forall g :: g in facts ==> RangeStored(g.low, g.mean, g.high)
    ensures var rows := RegionRows(facts, date, keys);
            && rows.Ok? && |rows.value| == |facts|
            && forall i :: 0 <= i < |facts| ==>
                 BuiltRow(facts[i], date, keys, LeastLow(facts), GreatestHigh(facts),
                          rows.value[i])
  {
    hide MeterOf, LeastLow, GreatestHigh, MeterShows;
    forall i | 0 <= i < |facts|
      ensures RangeValid(facts[i])
      ensures var m := MeterOf(facts[i], LeastLow(facts), GreatestHigh(facts));
              && m.Ok? && 0 <= m.value.minimum <= m.value.mean <= m.value.maximum <= 10000
              && MeterShows(m.value, facts[i].low, facts[i].mean, facts[i].high,
                            LeastLow(facts), GreatestHigh(facts))
    {
      MeterOfRow(facts, facts[i]);
    }
  }

  lemma BuiltMetersShow(
    facts: seq<RegionalFact>, date: int, keys: set<(Uuid, int)>, rows: seq<RegionRow>)
    requires facts != [] && |rows| == |facts|
    requires forall i :: 0 <= i < |facts| ==>
               BuiltRow(facts[i], date, keys, LeastLow(facts), GreatestHigh(facts), rows[i])
    ensures MetersShow(rows)
  {
    hide LeastLow, GreatestHigh, MeterShows;
    var low, high := LeastLow(facts), GreatestHigh(facts);
    RowsOnScale(facts, rows, low, high);
    forall i | 0 <= i < |rows|
      ensures MeterShows(rows[i].meter, rows[i].fact.low, rows[i].fact.mean, rows[i].fact.high,
                         low, high)
    {
      assert BuiltRow(facts[i], date, keys, low, high, rows[i]);
    }
  }

  lemma RowsOnScale(facts: seq<RegionalFact>, rows: seq<RegionRow>, low: int, high: int)
    requires facts != [] && |rows| == |facts|
    requires forall i :: 0 <= i < |facts| ==> rows[i].fact == facts[i]
    requires low == LeastLow(facts) && high == GreatestHigh(facts)
    ensures ScaleOfRows(rows, low, high)
  {
    var f :| f in facts && f.low == low;
    var i :| 0 <= i < |facts| && facts[i] == f;
    assert rows[i].fact.low == low;
    var g :| g in facts && g.high == high;
    var j :| 0 <= j < |facts| && facts[j] == g;
    assert rows[j].fact.high == high;
    forall k | 0 <= k < |rows|
      ensures low <= rows[k].fact.low && rows[k].fact.high <= high
    {
      assert facts[k] in facts;
    }
  }

  lemma BuiltRowsShow(
    b: Bundle, series: Uuid, dates: seq<int>, regional: seq<RegionalFact>,
    keys: set<(Uuid, int)>, date: int, facts: seq<RegionalFact>, rows: seq<RegionRow>)
    requires QueriesExact(b, series, dates, regional, keys) && InWindow(b, date)
    requires RegionalUnique(facts)
    requires forall f :: f in facts <==> f in regional && f.date == date
    requires facts != [] && |rows| == |facts|
    requires forall i :: 0 <= i < |facts| ==>
               BuiltRow(facts[i], date, keys, LeastLow(facts), GreatestHigh(facts), rows[i])
    ensures RowsShow(b, series, date, rows)
  {
    hide LeastLow, GreatestHigh, MeterShows, MetersShow;
    BuiltMetersShow(facts, date, keys, rows);
    forall i | 0 <= i < |rows|
      ensures RowShows(b, series, date, rows[i])
    {
      assert BuiltRow(facts[i], date, keys, LeastLow(facts), GreatestHigh(facts), rows[i]);
      assert facts[i] in facts && facts[i] in regional;
    }
    forall f | f in b.regional && f.series == series && f.date == date
      ensures exists i :: 0 <= i < |rows| && rows[i].fact == f
    {
      assert f in regional && f in facts;
      var i :| 0 <= i < |facts| && facts[i] == f;
      assert rows[i].fact == f;
    }
    forall i, j | 0 <= i < j < |rows|
      ensures rows[i].fact.region != rows[j].fact.region
    {
      assert facts[i] in facts && facts[j] in facts;
      assert facts[i] in regional && facts[j] in regional;
    }
  }

  lemma OfferedDateHasFacts(
    b: Bundle, series: Uuid, dates: seq<int>, regional: seq<RegionalFact>,
    keys: set<(Uuid, int)>, date: int)
    requires QueriesExact(b, series, dates, regional, keys) && date in dates
    ensures exists f :: f in regional && f.date == date
  {
    var region :| Shared(b.regional, b.markets, series, region, date);
    var f :| f in b.regional && f.series == series && f.region == region && f.date == date;
    assert f in regional;
  }

  /** The page that exact queries give. */
  lemma ExactQueriesGivePage(
    b: Bundle, series: Uuid, dates: seq<int>, regional: seq<RegionalFact>,
    keys: set<(Uuid, int)>, selected: Option<int>, date: int)
    requires QueriesExact(b, series, dates, regional, keys) && dates != []
    requires date == if selected.Some? then selected.value else dates[0]
    ensures var page := RegionsPageFrom(dates, regional, keys, selected);
            if date in dates then
              page.Ok? && page.value.dates == dates && page.value.selected == date
              && RowsShow(b, series, date, page.value.rows)
            else
              page.Err? && page.error.Parameter?
  {
    if date in dates {
      var facts := Filter((f: RegionalFact) => f.date == date, regional);
      FilterKeepsUnique((f: RegionalFact) => f.date == date, regional);
      OfferedDateHasFacts(b, series, dates, regional, keys, date);
      var f :| f in regional && f.date == date;
      assert f in facts;
      RowsAreBuilt(facts, date, keys);
      BuiltRowsShow(b, series, dates, regional, keys, date, facts,
                    RegionRows(facts, date, keys).value);
    }
  }

  lemma SeriesHasDate(b: Bundle, src: Sources, series: Uuid, dates: seq<int>)
    requires SealedFrom(b, src) && series in MonthlySeries(b.monthly)
    requires DatesExact(b, series, dates)
    ensures dates != []
  {
    assert SharesSomeDate(b.regional, b.markets, series);
    var region, date :| Shared(b.regional, b.markets, series, region, date);
    assert SharedDate(b, series, date);
    assert date in dates;
  }

  /** What a reader of a sealed series is promised about the regional page. */
  ghost predicate RegionsPromise(
    b: Bundle, series: Uuid, selected: Option<int>, page: Result<RegionsPage, ReadError>)
  {
    && (page == Err(Overflow) <==> b.dateMax <= 30)
    && (page.Ok?
        <==> (b.dateMax > 30 && (selected.Some? ==> SharedDate(b, series, selected.value))))
    && (page.Err? ==> page.error.Overflow? || page.error.Parameter?)
    && (page.Ok? ==> PageShows(b, series, selected, page.value))
  }

  ghost predicate PageShows(b: Bundle, series: Uuid, selected: Option<int>, page: RegionsPage) {
    && Descending(page.dates) && page.dates != []
    && (forall d :: d in page.dates <==> SharedDate(b, series, d))
    && page.selected == (if selected.Some? then selected.value else page.dates[0])
    && page.selected in page.dates
    && RowsShow(b, series, page.selected, page.rows)
  }

  /**
   * The regional page of a sealed series never meets an integrity error. Without a date it
   * succeeds exactly when the window does not reach before day 1; with a date it succeeds
   * exactly on the shared dates and refuses every other one as a parameter.
   */
  lemma RegionsReadSucceeds(b: Bundle, src: Sources, series: Uuid, selected: Option<int>)
    requires SealedFrom(b, src) && series in MonthlySeries(b.monthly)
    ensures RegionsPromise(b, series, selected, RegionsContext(b, series, selected))
  {
    SealedDatesAreExact(b, src, series);
    SealedFactsAreExact(b, src, series);
    WindowKeysAreExact(b, series);
    SeriesHasDate(b, src, series, DateOptions(b, series));
    RegionsPromiseFrom(b, series, selected, DateOptions(b, series), RegionalInWindow(b, series),
                       MarketKeys(b, series));
  }

  lemma RegionsPromiseFrom(
    b: Bundle, series: Uuid, selected: Option<int>,
    dates: seq<int>, regional: seq<RegionalFact>, keys: set<(Uuid, int)>)
    requires QueriesExact(b, series, dates, regional, keys) && dates != []
    ensures RegionsPromise(b, series, selected,
                           if b.dateMax - 30 < 1 then Err(Overflow)
                           else RegionsPageFrom(dates, regional, keys, selected))
  {
    hide RegionsPageFrom, RowsShow;
    assert dates[0] in dates;
    ExactQueriesGivePage(b, series, dates, regional, keys, selected,
                         if selected.Some? then selected.value else dates[0]);
  }

  // ---------------------------------------------------------------- the market page

  datatype MarketsPage = MarketsPage(
    dates: seq<int>, selected: int, rows: seq<MarketFact>,
    lowest: int, highest: int, total: nat, page: nat, totalPages: nat)

  function RegionMarkets(b: Bundle, series: Uuid, region: Uuid): seq<MarketFact> {
    Filter((f: MarketFact) => f.region == region, MarketsInWindow(b, series))
  }

  function RegionDates(b: Bundle, series: Uuid, region: Uuid): set<int> {
    set f | f in RegionalInWindow(b, series) && f.region == region :: f.date
  }

  function MarketDateOptions(b: Bundle, series: Uuid, region: Uuid): seq<int> {
    SortedDescending(Column(
      (f: MarketFact) => f.date,
      Filter((f: MarketFact) => f.date in RegionDates(b, series, region),
             RegionMarkets(b, series, region))))
  }

  function MarketsOn(facts: seq<MarketFact>, date: int): seq<MarketFact> {
    Filter((f: MarketFact) => f.date == date, facts)
  }

  function LowestPrice(rows: seq<MarketFact>): (m: int)
    requires rows != []
    ensures forall f :: f in rows ==> m <= f.price
    ensures exists f :: f in rows && f.price == m
  {
    Least(Column((f: MarketFact) => f.price, rows))
  }

  function HighestPrice(rows: seq<MarketFact>): (m: int)
    requires rows != []
    ensures forall f :: f in rows ==> f.price <= m
    ensures exists f :: f in rows && f.price == m
  {
    Greatest(Column((f: MarketFact) => f.price, rows))
  }

  function TotalPages(total: nat): (n: nat)
    ensures n >= 1
  {
    var n := (total + HISTORICAL_PAGE_SIZE - 1) / HISTORICAL_PAGE_SIZE;
    if n < 1 then 1 else n
  }

  /** One page of rows; a page past the end is short or empty, never an error. */
  function PageOf<T>(rows: seq<T>, page: nat): seq<T>
    requires page >= 1
  {
    var start := (page - 1) * HISTORICAL_PAGE_SIZE;
    var end := start + HISTORICAL_PAGE_SIZE;
    rows[if start < |rows| then start else |rows|..if end < |rows| then end else |rows|]
  }

  /** The page from the results of the two queries for one region. */
  function MarketsPageFrom(
    dates: seq<int>, facts: seq<MarketFact>, region: Uuid, selected: Option<int>, page: nat)
    : Result<MarketsPage, ReadError>
    requires page >= 1
  {
    if dates == [] then
      Err(Parameter("The selected region is not available for this series."))
    else
      var date := if selected.Some? then selected.value else dates[0];
      if date !in dates then Err(Parameter("The selected survey date is not available."))
      else
        var rows := MarketsOn(facts, date);
        if exists i :: 0 <= i < |rows|
                       && (rows[i].price <= 0 || rows[i].marketRegion != region) then
          Err(Integrity("Published market prices are malformed."))
        else if rows == [] then
          Err(Integrity("Published market summary facts are malformed."))
        else if page > TotalPages(|rows|) then
          Err(Parameter("The selected page is not available."))
        else
          Ok(MarketsPage(dates, date, PageOf(rows, page), LowestPrice(rows),
                         HighestPrice(rows), |rows|, page, TotalPages(|rows|)))
  }

  /** The page form yields a page from 1 on. */
  function MarketsContext(
    b: Bundle, series: Uuid, region: Uuid, selected: Option<int>, page: nat)
    : Result<MarketsPage, ReadError>
    requires page >= 1
  {
    if b.dateMax - 30 < 1 then Err(Overflow)
    else
      MarketsPageFrom(MarketDateOptions(b, series, region), RegionMarkets(b, series, region),
                      region, selected, page)
  }

  /** What a sealed bundle guarantees about the two queries for one region. */
  ghost predicate MarketQueriesExact(
    b: Bundle, series: Uuid, region: Uuid, dates: seq<int>, facts: seq<MarketFact>)
  {
    && Descending(dates)
    && (forall d :: d in dates <==> Shared(b.regional, b.markets, series, region, d))
    && (forall d :: d in dates ==> InWindow(b, d))
    && (forall f :: f in facts ==> f.price > 0 && f.marketRegion == region)
    && (forall f :: multiset(facts)[f]
          == if f.series == series && f.region == region && InWindow(b, f.date) then
               multiset(b.markets)[f]
             else 0)
  }

  /** The stored market facts of a region and date, in any order. */
  ghost predicate MarketList(
    b: Bundle, series: Uuid, region: Uuid, date: int, all: seq<MarketFact>)
  {
    forall f :: multiset(all)[f]
      == if f.series == series && f.region == region && f.date == date then
           multiset(b.markets)[f]
         else 0
  }

  lemma MarketListsAgree(
    b: Bundle, series: Uuid, region: Uuid, date: int, a: seq<MarketFact>, c: seq<MarketFact>)
    requires MarketList(b, series, region, date, a) && MarketList(b, series, region, date, c)
    ensures |a| == |c|
  {
    assert multiset(a) == multiset(c);
    assert |multiset(a)| == |a| && |multiset(c)| == |c|;
  }

  lemma RegionMarketsCount(b: Bundle, series: Uuid, region: Uuid, f: MarketFact)
    ensures multiset(RegionMarkets(b, series, region))[f]
         == if f.series == series && f.region == region && InWindow(b, f.date) then
              multiset(b.markets)[f]
            else 0
  {
    FilterCounts((g: MarketFact) => g.series == series && InWindow(b, g.date), b.markets, f);
    FilterCounts((g: MarketFact) => g.region == region, MarketsInWindow(b, series), f);
  }

  lemma MarketsOnIsList(
    b: Bundle, series: Uuid, region: Uuid, dates: seq<int>, facts: seq<MarketFact>, date: int)
    requires MarketQueriesExact(b, series, region, dates, facts) && InWindow(b, date)
    ensures MarketList(b, series, region, date, MarketsOn(facts, date))
  {
    forall f
      ensures multiset(MarketsOn(facts, date))[f]
           == if f.series == series && f.region == region && f.date == date then
                multiset(b.markets)[f]
              else 0
    {
      FilterCounts((g: MarketFact) => g.date == date, facts, f);
    }
  }

  lemma MarketDateOptionIff(b: Bundle, series: Uuid, region: Uuid, date: int)
    ensures date in MarketDateOptions(b, series, region)
       <==> (exists f :: f in RegionMarkets(b, series, region) && f.date == date)
            && date in RegionDates(b, series, region)
  {
    var rows := Filter((f: MarketFact) => f.date in RegionDates(b, series, region),
                       RegionMarkets(b, series, region));
    MarketColumnIff(rows, date);
  }

  lemma MarketColumnIff(rows: seq<MarketFact>, date: int)
    ensures date in SortedDescending(Column((f: MarketFact) => f.date, rows))
       <==> exists f :: f in rows && f.date == date
  {
    ColumnMembers((f: MarketFact) => f.date, rows, date);
  }

  lemma MarketDateOptionsAreShared(
    b: Bundle, src: Sources, series: Uuid, region: Uuid, date: int)
    requires SealedFrom(b, src)
    ensures date in MarketDateOptions(b, series, region)
       <==> Shared(b.regional, b.markets, series, region, date)
    ensures Shared(b.regional, b.markets, series, region, date) ==> InWindow(b, date)
  {
    MarketDateOptionIff(b, series, region, date);
    if date in MarketDateOptions(b, series, region) {
      var f :| f in RegionMarkets(b, series, region) && f.date == date;
      assert HasMarket(b.markets, series, region, date);
      var g :| g in RegionalInWindow(b, series) && g.region == region && g.date == date;
      assert HasRegional(b.regional, series, region, date);
    }
    if Shared(b.regional, b.markets, series, region, date) {
      SharedDatesInWindow(b, src, series, region, date);
      var g :| g in b.regional && g.series == series && g.region == region && g.date == date;
      assert g in RegionalInWindow(b, series);
      var f :| f in b.markets && f.series == series && f.region == region && f.date == date;
      assert f in MarketsInWindow(b, series) && f in RegionMarkets(b, series, region);
    }
  }

  lemma SealedMarketQueriesAreExact(b: Bundle, src: Sources, series: Uuid, region: Uuid)
    requires SealedFrom(b, src)
    ensures MarketQueriesExact(b, series, region, MarketDateOptions(b, series, region),
                               RegionMarkets(b, series, region))
  {
    var dates := MarketDateOptions(b, series, region);
    forall d
      ensures d in dates <==> Shared(b.regional, b.markets, series, region, d)
      ensures d in dates ==> InWindow(b, d)
    {
      MarketDateOptionsAreShared(b, src, series, region, d);
    }
    forall f | f in RegionMarkets(b, series, region)
      ensures f.price > 0 && f.marketRegion == region
    {
      assert MarketStored(f, src.market);
    }
    forall f
      ensures multiset(RegionMarkets(b, series, region))[f]
           == if f.series == series && f.region == region && InWindow(b, f.date) then
                multiset(b.markets)[f]
              else 0
    {
      RegionMarketsCount(b, series, region, f);
    }
  }

  lemma MarketRowsAreSound(
    b: Bundle, series: Uuid, region: Uuid, dates: seq<int>, facts: seq<MarketFact>, date: int)
    requires MarketQueriesExact(b, series, region, dates, facts) && date in dates
    ensures var rows := MarketsOn(facts, date);
            && rows != []
            && (forall i :: 0 <= i < |rows| ==>
                  rows[i].price > 0 && rows[i].marketRegion == region)
  {
    var rows := MarketsOn(facts, date);
    var f :| f in b.markets && f.series == series && f.region == region && f.date == date;
    assert multiset(facts)[f] == multiset(b.markets)[f];
    assert f in multiset(b.markets) && f in facts && f in rows;
    forall i | 0 <= i < |rows|
      ensures rows[i].price > 0 && rows[i].marketRegion == region
    {
      assert rows[i] in rows && rows[i] in facts;
    }
  }

  /** Every price lies between the two, and some market charges each of them. */
  ghost predicate IsPriceRange(rows: seq<MarketFact>, lowest: int, highest: int) {
    && (forall f :: f in rows ==> lowest <= f.price <= highest)
    && (exists f :: f in rows && f.price == lowest)
    && (exists f :: f in rows && f.price == highest)
  }

  /** The asked date, or the newest one that both tables share for the region. */
  ghost predicate ChosenDate(
    b: Bundle, series: Uuid, region: Uuid, selected: Option<int>, date: int)
  {
    && Shared(b.regional, b.markets, series, region, date)
    && if selected.Some? then date == selected.value
       else forall d :: Shared(b.regional, b.markets, series, region, d) ==> d <= date
  }

  /** The page of a list of market facts: up to thirty from its first one on, and the totals. */
  ghost predicate PageShowsMarkets(all: seq<MarketFact>, page: nat, shown: MarketsPage)
    requires page >= 1
  {
    && 30 * (page - 1) < |all|
    && |shown.rows| == (if |all| < 30 * page then |all| - 30 * (page - 1) else 30)
    && (forall i :: 0 <= i < |shown.rows| ==> shown.rows[i] == all[30 * (page - 1) + i])
    && shown.total == |all|
    && shown.page == page
    && 30 * (shown.totalPages - 1) < |all| <= 30 * shown.totalPages
    && IsPriceRange(all, shown.lowest, shown.highest)
  }

  ghost predicate HasMarketPage(
    b: Bundle, series: Uuid, region: Uuid, date: int, page: nat)
  {
    exists all :: MarketList(b, series, region, date, all) && 30 * (page - 1) < |all|
  }

  /** What a reader of a sealed bundle is promised about a market page. */
  ghost predicate MarketsPromise(
    b: Bundle, series: Uuid, region: Uuid, selected: Option<int>, page: nat,
    result: Result<MarketsPage, ReadError>)
    requires page >= 1
  {
    && (result == Err(Overflow) <==> b.dateMax <= 30)
    && (result.Err? ==> result.error.Overflow? || result.error.Parameter?)
    && (result.Ok?
        <==> && b.dateMax > 30
             && exists date :: ChosenDate(b, series, region, selected, date)
                               && HasMarketPage(b, series, region, date, page))
    && (result.Ok? ==> MarketPageSound(b, series, region, selected, page, result.value))
  }

  ghost predicate MarketPageSound(
    b: Bundle, series: Uuid, region: Uuid, selected: Option<int>, page: nat, shown: MarketsPage)
    requires page >= 1
  {
    && Descending(shown.dates)
    && (forall d :: d in shown.dates <==> Shared(b.regional, b.markets, series, region, d))
    && ChosenDate(b, series, region, selected, shown.selected)
    && exists all :: MarketList(b, series, region, shown.selected, all)
                     && PageShowsMarkets(all, page, shown)
  }

  lemma PageExistsIff(total: nat, page: nat)
    requires total > 0 && page >= 1
    ensures page <= TotalPages(total) <==> 30 * (page - 1) < total
    ensures 30 * (TotalPages(total) - 1) < total <= 30 * TotalPages(total)
  {
  }

  lemma PageIsSlice(all: seq<MarketFact>, page: nat)
    requires page >= 1 && 30 * (page - 1) < |all|
    ensures var rows := PageOf(all, page);
            && |rows| == (if |all| < 30 * page then |all| - 30 * (page - 1) else 30)
            && forall i :: 0 <= i < |rows| ==> rows[i] == all[30 * (page - 1) + i]
  {
  }

  lemma ChosenIsOffered(
    b: Bundle, series: Uuid, region: Uuid, dates: seq<int>, selected: Option<int>, date: int)
    requires Descending(dates)
    requires forall d :: d in dates <==> Shared(b.regional, b.markets, series, region, d)
    ensures ChosenDate(b, series, region, selected, date)
       <==> date in dates && date == if selected.Some? then selected.value else dates[0]
  {
    if dates != [] {
      assert dates[0] in dates;
    }
  }

  lemma PageOfListIsSound(
    b: Bundle, series: Uuid, region: Uuid, dates: seq<int>, selected: Option<int>, date: int,
    rows: seq<MarketFact>, page: nat)
    requires Descending(dates) && page >= 1
    requires forall d :: d in dates <==> Shared(b.regional, b.markets, series, region, d)
    requires ChosenDate(b, series, region, selected, date)
    requires MarketList(b, series, region, date, rows) && 30 * (page - 1) < |rows|
    ensures MarketPageSound(
              b, series, region, selected, page,
              MarketsPage(dates, date, PageOf(rows, page), LowestPrice(rows), HighestPrice(rows),
                          |rows|, page, TotalPages(|rows|)))
  {
    hide PageOf, LowestPrice, HighestPrice, TotalPages, ChosenDate;
    PageExistsIff(|rows|, page);
    PageIsSlice(rows, page);
    assert PageShowsMarkets(
      rows, page,
      MarketsPage(dates, date, PageOf(rows, page), LowestPrice(rows), HighestPrice(rows),
                  |rows|, page, TotalPages(|rows|)));
  }

  /** Whether a page exists does not depend on the order in which the facts are listed. */
  lemma PageExistsForList(
    b: Bundle, series: Uuid, region: Uuid, date: int, rows: seq<MarketFact>, page: nat)
    requires MarketList(b, series, region, date, rows) && rows != [] && page >= 1
    ensures HasMarketPage(b, series, region, date, page) <==> page <= TotalPages(|rows|)
  {
    PageExistsIff(|rows|, page);
    if HasMarketPage(b, series, region, date, page) {
      var all :| MarketList(b, series, region, date, all) && 30 * (page - 1) < |all|;
      MarketListsAgree(b, series, region, date, all, rows);
    }
  }

  lemma OfferedPage(
    b: Bundle, series: Uuid, region: Uuid, dates: seq<int>, facts: seq<MarketFact>,
    selected: Option<int>, page: nat, date: int)
    requires MarketQueriesExact(b, series, region, dates, facts) && page >= 1
    requires ChosenDate(b, series, region, selected, date)
    ensures var result := MarketsPageFrom(dates, facts, region, selected, page);
            if HasMarketPage(b, series, region, date, page) then
              result.Ok? && result.value.selected == date
              && MarketPageSound(b, series, region, selected, page, result.value)
            else
              result.Err? && result.error.Parameter?
  {
    hide MarketsOn, PageOf, LowestPrice, HighestPrice, TotalPages, MarketList, ChosenDate,
         HasMarketPage, MarketPageSound;
    ChosenIsOffered(b, series, region, dates, selected, date);
    MarketRowsAreSound(b, series, region, dates, facts, date);
    var rows := MarketsOn(facts, date);
    MarketsOnIsList(b, series, region, dates, facts, date);
    PageExistsForList(b, series, region, date, rows, page);
    if page <= TotalPages(|rows|) {
      PageExistsIff(|rows|, page);
      PageOfListIsSound(b, series, region, dates, selected, date, rows, page);
    }
  }

  lemma ExactMarketQueriesGivePage(
    b: Bundle, series: Uuid, region: Uuid, dates: seq<int>, facts: seq<MarketFact>,
    selected: Option<int>, page: nat)
    requires MarketQueriesExact(b, series, region, dates, facts) && page >= 1
    ensures MarketsPromise(b, series, region, selected, page,
                           if b.dateMax - 30 < 1 then Err(Overflow)
                           else MarketsPageFrom(dates, facts, region, selected, page))
  {
    forall date
      ensures ChosenDate(b, series, region, selected, date)
         <==> date in dates && date == if selected.Some? then selected.value else dates[0]
    {
      ChosenIsOffered(b, series, region, dates, selected, date);
    }
    if dates != [] {
      var date := if selected.Some? then selected.value else dates[0];
      if date in dates {
        OfferedPage(b, series, region, dates, facts, selected, page, date);
      }
    }
  }

  /**
   * The market page of a sealed bundle never meets an integrity error for any series, region,
   * date and page. Unless the window reaches before day 1, it succeeds exactly for a region
   * and date that both tables share, on the pages that exist, and refuses everything else as
   * a parameter. It shows the stored market facts of exactly that region and date.
   */
  lemma MarketsReadSucceeds(
    b: Bundle, src: Sources, series: Uuid, region: Uuid, selected: Option<int>, page: nat)
    requires SealedFrom(b, src) && page >= 1
    ensures MarketsPromise(b, series, region, selected, page,
                           MarketsContext(b, series, region, selected, page))
  {
    SealedMarketQueriesAreExact(b, src, series, region);
    ExactMarketQueriesGivePage(b, series, region, MarketDateOptions(b, series, region),
                               RegionMarkets(b, series, region), selected, page);
  }

  /** A date with a market fact has a first page. */
  lemma SharedDateHasPage(b: Bundle, src: Sources, series: Uuid, region: Uuid, date: int)
    requires SealedFrom(b, src) && Shared(b.regional, b.markets, series, region, date)
    ensures HasMarketPage(b, series, region, date, 1)
  {
    SealedMarketQueriesAreExact(b, src, series, region);
    var dates, facts := MarketDateOptions(b, series, region), RegionMarkets(b, series, region);
    MarketRowsAreSound(b, series, region, dates, facts, date);
    MarketsOnIsList(b, series, region, dates, facts, date);
  }

  /** A regional row is marked as available exactly when its first market page opens. */
  lemma AvailableRowOpens(b: Bundle, src: Sources, series: Uuid, date: int, row: RegionRow)
    requires SealedFrom(b, src) && b.dateMax > 30 && RowShows(b, series, date, row)
    ensures row.marketAvailable
       <==> MarketsContext(b, series, row.fact.region, Some(date), 1).Ok?
  {
    MarketsReadSucceeds(b, src, series, row.fact.region, Some(date), 1);
    assert HasRegional(b.regional, series, row.fact.region, date);
    if row.marketAvailable {
      SharedDateHasPage(b, src, series, row.fact.region, date);
      assert ChosenDate(b, series, row.fact.region, Some(date), date);
    }
  }

  // ---------------------------------------------------------------- paging

  function Pages<T>(rows: seq<T>, upTo: nat): seq<T> {
    if upTo == 0 then [] else Pages(rows, upTo - 1) + PageOf(rows, upTo)
  }

  lemma {:induction false} PagesArePrefixes<T>(rows: seq<T>, upTo: nat)
    ensures Pages(rows, upTo)
         == rows[..if upTo * HISTORICAL_PAGE_SIZE < |rows|
                   then upTo * HISTORICAL_PAGE_SIZE else |rows|]
  {
    if upTo > 0 {
      PagesArePrefixes(rows, upTo - 1);
    }
  }

  /** The pages, in order, are all the rows; none is empty and none exceeds thirty. */
  lemma PagesPartitionRows<T>(rows: seq<T>)
    requires rows != []
    ensures Pages(rows, TotalPages(|rows|)) == rows
    ensures forall page :: 1 <= page <= TotalPages(|rows|) ==>
              1 <= |PageOf(rows, page)| <= HISTORICAL_PAGE_SIZE
  {
    PagesArePrefixes(rows, TotalPages(|rows|));
    assert TotalPages(|rows|) * HISTORICAL_PAGE_SIZE >= |rows|;
  }

  // ---------------------------------------------------------------- recovery

  function FirstAvailable(rows: seq<RegionRow>): (k: nat)
    ensures k <= |rows|
    ensures k < |rows| ==> rows[k].marketAvailable
    ensures forall i :: 0 <= i < k ==> !rows[i].marketAvailable
  {
    if rows == [] || rows[0].marketAvailable then 0 else FirstAvailable(rows[1..]) + 1
  }

  function MarketRecovery(b: Bundle, series: Uuid): Result<(MarketsPage, Uuid), ReadError> {
    match RegionsContext(b, series, None)
    case Err(e) => Err(e)
    case Ok(regional) =>
      var k := FirstAvailable(regional.rows);
      if k == |regional.rows| then
        Err(Integrity("No published market recovery region is available."))
      else
        var region := regional.rows[k].fact.region;
        match MarketsContext(b, series, region, None, 1)
        case Err(e) => Err(e)
        case Ok(page) => Ok((page, region))
  }

  lemma SharedDateHasAvailableRow(b: Bundle, series: Uuid, date: int, rows: seq<RegionRow>)
    requires SharedDate(b, series, date) && RowsShow(b, series, date, rows)
    ensures exists i :: 0 <= i < |rows| && rows[i].marketAvailable
  {
    var region :| Shared(b.regional, b.markets, series, region, date);
    var f :| f in b.regional && f.series == series && f.region == region && f.date == date;
    var i :| 0 <= i < |rows| && rows[i].fact == f;
    assert RowShows(b, series, date, rows[i]);
  }

  lemma NewestForRegion(b: Bundle, series: Uuid, region: Uuid, date: int)
    requires Shared(b.regional, b.markets, series, region, date)
    requires forall d :: SharedDate(b, series, d) ==> d <= date
    ensures ChosenDate(b, series, region, None, date)
  {
    forall d | Shared(b.regional, b.markets, series, region, d)
      ensures d <= date
    {
      assert SharedDate(b, series, d);
    }
  }

  lemma AvailableRegion(b: Bundle, series: Uuid, page: RegionsPage) returns (region: Uuid)
    requires PageShows(b, series, None, page)
    ensures var k := FirstAvailable(page.rows);
            k < |page.rows| && page.rows[k].fact.region == region
    ensures Shared(b.regional, b.markets, series, region, page.selected)
  {
    SharedDateHasAvailableRow(b, series, page.selected, page.rows);
    var k := FirstAvailable(page.rows);
    region := page.rows[k].fact.region;
    assert RowShows(b, series, page.selected, page.rows[k]);
    assert HasRegional(b.regional, series, region, page.selected);
  }

  lemma NewestIsGreatest(b: Bundle, series: Uuid, page: RegionsPage)
    requires PageShows(b, series, None, page)
    ensures forall d :: SharedDate(b, series, d) ==> d <= page.selected
  {
    forall d | SharedDate(b, series, d)
      ensures d <= page.selected
    {
      assert d in page.dates;
    }
  }

  /** The first available region's own first page, when the regional page shows one. */
  lemma RecoveryRegionOpens(b: Bundle, src: Sources, series: Uuid, page: RegionsPage, region: Uuid)
    requires SealedFrom(b, src) && b.dateMax > 30 && PageShows(b, series, None, page)
    requires Shared(b.regional, b.markets, series, region, page.selected)
    ensures var result := MarketsContext(b, series, region, None, 1);
            && result.Ok? && result.value.selected == page.selected
            && MarketPageSound(b, series, region, None, 1, result.value)
  {
    NewestIsGreatest(b, series, page);
    NewestForRegion(b, series, region, page.selected);
    SharedDateHasPage(b, src, series, region, page.selected);
    MarketsReadSucceeds(b, src, series, region, None, 1);
  }

  /**
   * Unless the window reaches before day 1 the recovery page exists: the first market page of
   * some region on the newest shared date of the whole series.
   */
  lemma RecoverySucceeds(b: Bundle, src: Sources, series: Uuid)
    requires SealedFrom(b, src) && series in MonthlySeries(b.monthly)
    ensures var result := MarketRecovery(b, series);
            && (result.Ok? <==> b.dateMax > 30)
            && (result.Err? ==> result.error.Overflow?)
            && (result.Ok? ==>
                  && MarketPageSound(b, series, result.value.1, None, 1, result.value.0)
                  && forall d :: SharedDate(b, series, d) ==> d <= result.value.0.selected)
  {
    hide MarketPageSound, PageShows, RegionsContext, MarketsContext, SharedDate;
    RegionsReadSucceeds(b, src, series, None);
    if b.dateMax > 30 {
      var page := RegionsContext(b, series, None).value;
      var region := AvailableRegion(b, series, page);
      RecoveryRegionOpens(b, src, series, page, region);
      NewestIsGreatest(b, series, page);
    }
  }
}
