/** Sealing a historical bundle: the completeness check and the revision it freezes. */
module HistoricalSeal {
  import opened Common
  import opened Months
  import opened HistoricalFacts

  datatype SealError =
    | NotReviewed | ManifestsDiffer | DailyWindowTooLong | CountMismatch
    | SeriesSetsDiffer | IncompleteMonths | NoSharedDate | SeriesManifestMismatch

  /** The sealed revision with the facts it froze. */
  datatype Bundle = Bundle(
    monthly: seq<MonthlyFact>,
    regional: seq<RegionalFact>,
    markets: seq<MarketFact>,
    monthMax: string,
    dateMin: int,
    dateMax: int,
    manifest: string)

  ghost predicate SharesSomeDate(
    regional: seq<RegionalFact>, markets: seq<MarketFact>, series: Uuid)
  {
    exists region, date :: Shared(regional, markets, series, region, date)
  }

  ghost predicate HasCompleteRegion(
    monthly: seq<MonthlyFact>, series: Uuid, monthMax: string, count: nat)
    requires |monthMax| == 6 && AllDigits(monthMax)
  {
    exists region :: CoversMonths(monthly, series, region, monthMax, count)
  }

  /** What completeness promises a reader. */
  ghost predicate Complete(
    monthly: seq<MonthlyFact>, regional: seq<RegionalFact>, markets: seq<MarketFact>,
    monthMax: string)
    requires |monthMax| == 6 && AllDigits(monthMax)
  {
    && MonthlySeries(monthly) != {}
    && MonthlySeries(monthly) == RegionalSeries(regional) == MarketSeries(markets)
    && (forall s :: s in MonthlySeries(monthly) ==> HasCompleteRegion(monthly, s, monthMax, 36))
    && (forall s :: s in MonthlySeries(monthly) ==> SharesSomeDate(regional, markets, s))
  }

  /** Whether some row of each daily table, or of the monthly one, belongs to a series. */
  ghost predicate KnownMonthly(rows: seq<MonthlyFact>, series: Uuid) {
    exists f :: f in rows && f.series == series
  }

  ghost predicate KnownRegional(rows: seq<RegionalFact>, series: Uuid) {
    exists f :: f in rows && f.series == series
  }

  ghost predicate KnownMarket(rows: seq<MarketFact>, series: Uuid) {
    exists f :: f in rows && f.series == series
  }

  /** The region has a row for each of the last 36 months. */
  ghost predicate ThreeYearsIn(
    monthly: seq<MonthlyFact>, series: Uuid, region: Uuid, monthMax: string)
    requires |monthMax| == 6 && AllDigits(monthMax)
  {
    forall m: int :: MonthNumber(monthMax) - 36 < m <= MonthNumber(monthMax) ==>
      HasMonthly(monthly, series, region, MonthValue(m))
  }

  lemma CoversIff(monthly: seq<MonthlyFact>, series: Uuid, region: Uuid, monthMax: string)
    requires |monthMax| == 6 && AllDigits(monthMax)
    ensures CoversMonths(monthly, series, region, monthMax, 36)
       <==> ThreeYearsIn(monthly, series, region, monthMax)
  {
    hide MonthValue, MonthNumber, HasMonthly;
    var last := MonthNumber(monthMax);
    var expected := ExpectedMonths(last, 36);
    forall m: int | last - 36 < m <= last
      ensures MonthValue(m) in expected
    {
      assert expected[m - last + 35] == MonthValue(m);
    }
    forall text | text in expected
      ensures exists m: int :: last - 36 < m <= last && text == MonthValue(m)
    {
      var i :| 0 <= i < 36 && expected[i] == text;
      assert text == MonthValue(last - 35 + i);
    }
  }

  /** The three series sets in the rows' own terms. */
  lemma KnownSeries(
    monthly: seq<MonthlyFact>, regional: seq<RegionalFact>, markets: seq<MarketFact>)
    ensures forall s :: s in MonthlySeries(monthly) <==> KnownMonthly(monthly, s)
    ensures forall s :: s in RegionalSeries(regional) <==> KnownRegional(regional, s)
    ensures forall s :: s in MarketSeries(markets) <==> KnownMarket(markets, s)
  {
  }

  /**
   * Completeness in the rows' own terms: there is a series, the three tables know the same
   * ones, and each has a region with three full years and a date that both daily tables share.
   */
  lemma CompleteMeans(
    monthly: seq<MonthlyFact>, regional: seq<RegionalFact>, markets: seq<MarketFact>,
    monthMax: string)
    requires |monthMax| == 6 && AllDigits(monthMax)
    ensures Complete(monthly, regional, markets, monthMax)
       <==> && monthly != []
            && (forall s :: KnownMonthly(monthly, s) <==> KnownRegional(regional, s))
            && (forall s :: KnownMonthly(monthly, s) <==> KnownMarket(markets, s))
            && (forall s :: KnownMonthly(monthly, s) ==>
                  exists region :: ThreeYearsIn(monthly, s, region, monthMax))
            && (forall s :: KnownMonthly(monthly, s) ==>
                  exists region, date :: Shared(regional, markets, s, region, date))
  {
    hide ThreeYearsIn, CoversMonths, Shared;
    KnownSeries(monthly, regional, markets);
    if monthly != [] {
      assert KnownMonthly(monthly, monthly[0].series);
    } else {
      assert MonthlySeries(monthly) == {};
    }
    forall s, region
      ensures CoversMonths(monthly, s, region, monthMax, 36)
         <==> ThreeYearsIn(monthly, s, region, monthMax)
    {
      CoversIff(monthly, s, region, monthMax);
    }
    forall s
      ensures HasCompleteRegion(monthly, s, monthMax, 36)
         <==> exists region :: ThreeYearsIn(monthly, s, region, monthMax)
    {
      if region :| CoversMonths(monthly, s, region, monthMax, 36) {
        assert ThreeYearsIn(monthly, s, region, monthMax);
      }
      if region :| ThreeYearsIn(monthly, s, region, monthMax) {
        assert CoversMonths(monthly, s, region, monthMax, 36);
      }
    }
    hide HasCompleteRegion, KnownMonthly, KnownRegional, KnownMarket,
      MonthlySeries, RegionalSeries, MarketSeries;
  }

  /** The first completeness requirement that fails. */
  ghost function CompletenessRefusal(
    monthly: seq<MonthlyFact>, regional: seq<RegionalFact>, markets: seq<MarketFact>,
    monthMax: string)
    : (refusal: Option<SealError>)
    requires |monthMax| == 6 && AllDigits(monthMax)
    ensures refusal.None? <==> Complete(monthly, regional, markets, monthMax)
  {
    var series := MonthlySeries(monthly);
    if series == {} || series != RegionalSeries(regional) || series != MarketSeries(markets) then
      Some(SeriesSetsDiffer)
    else if exists s :: s in series && !HasCompleteRegion(monthly, s, monthMax, 36) then
      Some(IncompleteMonths)
    else if exists s :: s in series && !SharesSomeDate(regional, markets, s) then
      Some(NoSharedDate)
    else None
  }

  // ---------------------------------------------------------------- the dictionary of sets

  type SeriesRegion = (Uuid, Uuid)

  function MonthsOf(rows: seq<MonthlyFact>, key: SeriesRegion): set<string> {
    set f | f in rows && f.series == key.0 && f.region == key.1 :: f.yearMonth
  }

  ghost predicate GroupsMonths(groups: map<SeriesRegion, set<string>>, rows: seq<MonthlyFact>) {
    && (forall f :: f in rows ==> (f.series, f.region) in groups)
    && (forall key :: key in groups ==> groups[key] == MonthsOf(rows, key))
  }

  /** Recording a month under its series and region; the first month opens the group. */
  lemma GroupsOneMore(
    groups: map<SeriesRegion, set<string>>, rows: seq<MonthlyFact>, f: MonthlyFact)
    requires GroupsMonths(groups, rows)
    ensures var key := (f.series, f.region);
            var months := if key in groups then groups[key] else {};
            GroupsMonths(groups[key := months + {f.yearMonth}], rows + [f])
  {
    var key := (f.series, f.region);
    var months := if key in groups then groups[key] else {};
    assert months == MonthsOf(rows, key);
    assert MonthsOf(rows + [f], key) == months + {f.yearMonth};
    forall other: SeriesRegion | other != key
      ensures MonthsOf(rows + [f], other) == MonthsOf(rows, other)
    {
    }
  }

  method GroupMonths(rows: seq<MonthlyFact>) returns (groups: map<SeriesRegion, set<string>>)
    ensures GroupsMonths(groups, rows)
  {
    groups := map[];
    for i := 0 to |rows|
      invariant GroupsMonths(groups, rows[..i])
    {
      var key := (rows[i].series, rows[i].region);
      var months := if key in groups then groups[key] else {};
      assert rows[..i + 1] == rows[..i] + [rows[i]];
      GroupsOneMore(groups, rows[..i], rows[i]);
      groups := groups[key := months + {rows[i].yearMonth}];
    }
    assert rows[..|rows|] == rows;
  }

  function RequiredMonths(last: int): set<string> {
    set m | m in ExpectedMonths(last, 36)
  }

  lemma GroupCovers(
    groups: map<SeriesRegion, set<string>>, rows: seq<MonthlyFact>, key: SeriesRegion,
    monthMax: string)
    requires GroupsMonths(groups, rows) && YearMonthPattern(monthMax)
    ensures key in groups && RequiredMonths(MonthNumber(monthMax)) <= groups[key]
       <==> CoversMonths(rows, key.0, key.1, monthMax, 36)
  {
    var expected := ExpectedMonths(MonthNumber(monthMax), 36);
    if CoversMonths(rows, key.0, key.1, monthMax, 36) {
      assert expected[0] in expected;
      var f :| f in rows && f.series == key.0 && f.region == key.1 && f.yearMonth == expected[0];
      assert (f.series, f.region) == key;
      forall m | m in RequiredMonths(MonthNumber(monthMax))
        ensures m in MonthsOf(rows, key)
      {
        assert HasMonthly(rows, key.0, key.1, m);
      }
    }
    if key in groups && RequiredMonths(MonthNumber(monthMax)) <= groups[key] {
      forall m | m in expected
        ensures HasMonthly(rows, key.0, key.1, m)
      {
        assert m in MonthsOf(rows, key);
      }
    }
  }

  /** Whether some group of the series holds every required month. */
  method CompleteRegionExists(
    groups: map<SeriesRegion, set<string>>, ghost rows: seq<MonthlyFact>, series: Uuid,
    monthMax: string)
    returns (found: bool)
    requires GroupsMonths(groups, rows) && YearMonthPattern(monthMax)
    ensures found <==> HasCompleteRegion(rows, series, monthMax, 36)
  {
    var required := RequiredMonths(MonthNumber(monthMax));
    found := exists key :: key in groups.Keys && key.0 == series && required <= groups[key];
    if found {
      var key :| key in groups.Keys && key.0 == series && required <= groups[key];
      GroupCovers(groups, rows, key, monthMax);
    }
    if region: Uuid :| CoversMonths(rows, series, region, monthMax, 36) {
      GroupCovers(groups, rows, (series, region), monthMax);
      assert (series, region) in groups.Keys;
    }
  }

  method EverySeriesComplete(
    groups: map<SeriesRegion, set<string>>, ghost rows: seq<MonthlyFact>, series: set<Uuid>,
    monthMax: string)
    returns (complete: bool)
    requires GroupsMonths(groups, rows) && YearMonthPattern(monthMax)
    ensures complete <==> forall s :: s in series ==> HasCompleteRegion(rows, s, monthMax, 36)
  {
    var rest := series;
    while rest != {}
      invariant rest <= series
      invariant forall s :: s in series - rest ==> HasCompleteRegion(rows, s, monthMax, 36)
      decreases |rest|
    {
      var s :| s in rest;
      var found := CompleteRegionExists(groups, rows, s, monthMax);
      if !found {
        return false;
      }
      rest := rest - {s};
    }
    complete := true;
  }

  // ---------------------------------------------------------------- shared keys

  type DailyKey = (Uuid, Uuid, int)

  function SharedKeys(regional: seq<RegionalFact>, markets: seq<MarketFact>): set<DailyKey> {
    (set f | f in regional :: (f.series, f.region, f.date))
    * (set f | f in markets :: (f.series, f.region, f.date))
  }

  lemma SharedKeysAreShared(
    regional: seq<RegionalFact>, markets: seq<MarketFact>, key: DailyKey)
    ensures key in SharedKeys(regional, markets)
       <==> Shared(regional, markets, key.0, key.1, key.2)
  {
    if HasRegional(regional, key.0, key.1, key.2) {
      var f :| f in regional && f.series == key.0 && f.region == key.1 && f.date == key.2;
      assert (f.series, f.region, f.date) == key;
    }
    if HasMarket(markets, key.0, key.1, key.2) {
      var f :| f in markets && f.series == key.0 && f.region == key.1 && f.date == key.2;
      assert (f.series, f.region, f.date) == key;
    }
  }

  /** The dates of the shared keys, without their series and regions. */
  function SharedDates(regional: seq<RegionalFact>, markets: seq<MarketFact>): set<int> {
    set key | key in SharedKeys(regional, markets) :: key.2
  }

  /** A date on which both daily tables know some series in some region. */
  ghost predicate SharedOn(
    regional: seq<RegionalFact>, markets: seq<MarketFact>, date: int)
  {
    exists series, region :: Shared(regional, markets, series, region, date)
  }

  lemma SharedDatesAreShared(
    regional: seq<RegionalFact>, markets: seq<MarketFact>, date: int)
    ensures date in SharedDates(regional, markets) <==> SharedOn(regional, markets, date)
  {
    if date in SharedDates(regional, markets) {
      var key :| key in SharedKeys(regional, markets) && key.2 == date;
      SharedKeysAreShared(regional, markets, key);
    }
    if SharedOn(regional, markets, date) {
      var series, region :| Shared(regional, markets, series, region, date);
      SharedKeysAreShared(regional, markets, (series, region, date));
      assert (series, region, date).2 in SharedDates(regional, markets);
    }
  }

  predicate SeriesHasKey(keys: set<DailyKey>, series: Uuid) {
    exists key :: key in keys && key.0 == series
  }

  lemma SeriesHasKeyIff(regional: seq<RegionalFact>, markets: seq<MarketFact>, series: Uuid)
    ensures SeriesHasKey(SharedKeys(regional, markets), series)
       <==> SharesSomeDate(regional, markets, series)
  {
    var keys := SharedKeys(regional, markets);
    if SeriesHasKey(keys, series) {
      var key :| key in keys && key.0 == series;
      SharedKeysAreShared(regional, markets, key);
    }
    if SharesSomeDate(regional, markets, series) {
      var region, date :| Shared(regional, markets, series, region, date);
      SharedKeysAreShared(regional, markets, (series, region, date));
    }
  }

  /** The three completeness requirements, in the source's order. */
  method ValidateCompleteness(
    monthly: seq<MonthlyFact>, regional: seq<RegionalFact>, markets: seq<MarketFact>,
    monthMax: string)
    returns (result: Result<set<int>, SealError>)
    requires YearMonthPattern(monthMax)
    ensures result.Ok? <==> Complete(monthly, regional, markets, monthMax)
    ensures result.Ok? ==>
              forall d :: d in result.value <==> SharedOn(regional, markets, d)
    ensures result.Err? ==>
              CompletenessRefusal(monthly, regional, markets, monthMax) == Some(result.error)
  {
    var series := MonthlySeries(monthly);
    if series == {} || series != RegionalSeries(regional) || series != MarketSeries(markets) {
      return Err(SeriesSetsDiffer);
    }
    var groups := GroupMonths(monthly);
    var complete := EverySeriesComplete(groups, monthly, series, monthMax);
    if !complete {
      return Err(IncompleteMonths);
    }
    var keys := SharedKeys(regional, markets);
    forall s | s in series
      ensures SeriesHasKey(keys, s) <==> SharesSomeDate(regional, markets, s)
    {
      SeriesHasKeyIff(regional, markets, s);
    }
    if exists s :: s in series && !SeriesHasKey(keys, s) {
      return Err(NoSharedDate);
    }
    forall d
      ensures d in SharedDates(regional, markets) <==> SharedOn(regional, markets, d)
    {
      SharedDatesAreShared(regional, markets, d);
    }
    result := Ok(SharedDates(regional, markets));
  }

  // ---------------------------------------------------------------- the seal

  predicate ManifestMatches(src: Sources)
    requires forall f :: f in src.monthly.facts ==> f.series in src.seriesManifest
  {
    forall f :: f in src.monthly.facts ==>
      src.seriesManifest[f.series] == src.monthly.manifest
  }

  /** Everything the sealing service demands of the three reviewed collections. */
  ghost predicate Sealable(src: Sources)
    requires Stored(src)
  {
    && src.monthly.reviewed && src.regional.reviewed && src.market.reviewed
    && src.monthly.manifest == src.regional.manifest == src.market.manifest
    && src.regional.dateMax - src.regional.dateMin <= 30
    && src.market.dateMax - src.market.dateMin <= 30
    && |src.monthly.facts| == src.monthly.accepted
    && |src.regional.facts| == src.regional.accepted
    && |src.market.facts| == src.market.accepted
    && Complete(src.monthly.facts, src.regional.facts, src.market.facts, src.monthly.monthMax)
    && ManifestMatches(src)
  }

  ghost predicate Bounds(dates: set<int>, least: int, greatest: int) {
    forall d :: d in dates ==> least <= d <= greatest
  }

  lemma BoundsAdd(dates: set<int>, least: int, greatest: int, d: int)
    requires Bounds(dates, least, greatest)
    ensures Bounds(dates + {d}, if d < least then d else least,
                   if d > greatest then d else greatest)
  {
  }

  /** The first requirement of the sealing service that fails. */
  ghost function SealRefusal(src: Sources): (refusal: Option<SealError>)
    requires Stored(src)
    ensures refusal.None? <==> Sealable(src)
  {
    if !(src.monthly.reviewed && src.regional.reviewed && src.market.reviewed) then
      Some(NotReviewed)
    else if !(src.monthly.manifest == src.regional.manifest == src.market.manifest) then
      Some(ManifestsDiffer)
    else if src.regional.dateMax - src.regional.dateMin > 30
            || src.market.dateMax - src.market.dateMin > 30 then Some(DailyWindowTooLong)
    else if |src.monthly.facts| != src.monthly.accepted
            || |src.regional.facts| != src.regional.accepted
            || |src.market.facts| != src.market.accepted then Some(CountMismatch)
    else
      var incomplete := CompletenessRefusal(
        src.monthly.facts, src.regional.facts, src.market.facts, src.monthly.monthMax);
      if incomplete.Some? then incomplete
      else if !ManifestMatches(src) then Some(SeriesManifestMismatch)
      else None
  }

  /** The bundle holds the facts unchanged and the exact extremes of the shared dates. */
  ghost predicate Freezes(b: Bundle, src: Sources) {
    && b.monthly == src.monthly.facts
    && b.regional == src.regional.facts
    && b.markets == src.market.facts
    && b.monthMax == src.monthly.monthMax
    && b.manifest == src.monthly.manifest
    && SharedOn(b.regional, b.markets, b.dateMin)
    && SharedOn(b.regional, b.markets, b.dateMax)
    && forall d :: SharedOn(b.regional, b.markets, d) ==> b.dateMin <= d <= b.dateMax
  }

  ghost predicate SealedFrom(b: Bundle, src: Sources) {
    Stored(src) && Sealable(src) && Freezes(b, src)
  }

  method Choose<T>(s: set<T>) returns (x: T)
    requires s != {}
    ensures x in s
  {
    x :| x in s;
  }

  /** The first and the last shared date. */
  method Extremes(dates: set<int>) returns (least: int, greatest: int)
    requires dates != {}
    ensures least in dates && greatest in dates && Bounds(dates, least, greatest)
  {
    var start := Choose(dates);
    least, greatest := start, start;
    var rest := dates - {start};
    ghost var seen := {start};
    while rest != {}
      invariant seen + rest == dates
      invariant least in dates && greatest in dates && Bounds(seen, least, greatest)
      decreases |rest|
    {
      var d := Choose(rest);
      BoundsAdd(seen, least, greatest, d);
      least := if d < least then d else least;
      greatest := if d > greatest then d else greatest;
      rest := rest - {d};
      seen := seen + {d};
    }
  }

  lemma CompleteHasDates(src: Sources)
    requires Stored(src)
    requires Complete(src.monthly.facts, src.regional.facts, src.market.facts, src.monthly.monthMax)
    ensures exists d :: SharedOn(src.regional.facts, src.market.facts, d)
  {
    var regional, markets := src.regional.facts, src.market.facts;
    var s :| s in MonthlySeries(src.monthly.facts);
    assert SharesSomeDate(regional, markets, s);
    var region, date :| Shared(regional, markets, s, region, date);
    assert SharedOn(regional, markets, date);
  }

  /** A bundle is sealed exactly when the sources are sealable, and then freezes them. */
  method Seal(src: Sources) returns (result: Result<Bundle, SealError>)
    requires Stored(src)
    ensures result.Ok? <==> Sealable(src)
    ensures result.Ok? ==> SealedFrom(result.value, src)
    ensures result.Err? ==> SealRefusal(src) == Some(result.error)
  {
    if !(src.monthly.reviewed && src.regional.reviewed && src.market.reviewed) {
      return Err(NotReviewed);
    }
    if |{src.monthly.manifest, src.regional.manifest, src.market.manifest}| != 1 {
      OneManifest(src.monthly.manifest, src.regional.manifest, src.market.manifest);
      return Err(ManifestsDiffer);
    }
    OneManifest(src.monthly.manifest, src.regional.manifest, src.market.manifest);
    if src.regional.dateMax - src.regional.dateMin > 30
       || src.market.dateMax - src.market.dateMin > 30 {
      return Err(DailyWindowTooLong);
    }
    if |src.monthly.facts| != src.monthly.accepted
       || |src.regional.facts| != src.regional.accepted
       || |src.market.facts| != src.market.accepted {
      return Err(CountMismatch);
    }
    var dates := ValidateCompleteness(
      src.monthly.facts, src.regional.facts, src.market.facts, src.monthly.monthMax);
    if dates.Err? {
      return Err(dates.error);
    }
    if !ManifestMatches(src) {
      return Err(SeriesManifestMismatch);
    }
    CompleteHasDates(src);
    var least, greatest := Extremes(dates.value);
    result := Ok(Bundle(src.monthly.facts, src.regional.facts, src.market.facts,
                        src.monthly.monthMax, least, greatest, src.monthly.manifest));
  }

  lemma OneManifest(a: string, b: string, c: string)
    ensures |{a, b, c}| == 1 <==> a == b == c
  {
    if |{a, b, c}| == 1 {
      SubsetOfEqualSize({a}, {a, b, c});
      assert b in {a} && c in {a};
    }
  }

  // ---------------------------------------------------------------- what a seal guarantees

  /** Every shared date of a sealed bundle lies in the 31 days that end at its last date. */
  lemma SharedDatesInWindow(b: Bundle, src: Sources, series: Uuid, region: Uuid, date: int)
    requires SealedFrom(b, src) && Shared(b.regional, b.markets, series, region, date)
    ensures b.dateMax - 30 <= date <= b.dateMax && b.dateMin <= date
  {
    assert SharedOn(b.regional, b.markets, date);
    var f :| f in b.regional && f.series == series && f.region == region && f.date == date;
    assert RegionalStored(f, src.regional);
    var s, r :| Shared(b.regional, b.markets, s, r, b.dateMax);
    var g :| g in b.regional && g.series == s && g.region == r && g.date == b.dateMax;
    assert RegionalStored(g, src.regional);
  }

  datatype Membership = NotListed | Listed | WrongManifest | InconsistentTables

  /** Whether the recent series has a historical counterpart in the bundle. */
  function MembershipOf(b: Bundle, series: Option<Uuid>, manifest: string): Membership {
    if series.None? then NotListed
    else if manifest != b.manifest then WrongManifest
    else
      var monthly := series.value in MonthlySeries(b.monthly);
      var regional := series.value in RegionalSeries(b.regional);
      var market := series.value in MarketSeries(b.markets);
      if !(monthly == regional == market) then InconsistentTables
      else if monthly then Listed
      else NotListed
  }

  /** On a sealed bundle the three tables always agree, and every series in it is listed. */
  lemma MembershipIsConsistent(b: Bundle, src: Sources, series: Uuid)
    requires SealedFrom(b, src) && series in src.seriesManifest
    ensures var m := MembershipOf(b, Some(series), src.seriesManifest[series]);
            && m != InconsistentTables
            && (m == Listed <==> series in MonthlySeries(b.monthly))
            && (m == WrongManifest ==> series !in MonthlySeries(b.monthly))
  {
    if series in MonthlySeries(b.monthly) {
      var f :| f in b.monthly && f.series == series;
      assert src.seriesManifest[f.series] == src.monthly.manifest;
    }
  }
}
