/** The monthly history page of one active bundle. */
module HistoricalHistoryRead {
  import opened Common
  import opened Months
  import opened HistoricalFacts
  import opened HistoricalSeal
  import opened HistoricalDailyRead
  import opened HistoryChart
  import opened HistoryLedger
  import opened ChartGeometry

  /** What the page shows: the complete regions, and the months of a selected one. */
  datatype Selection =
    | RegionsOnly(regions: set<Uuid>)
    | MonthsOfRegion(regions: set<Uuid>, allow60: bool, data: seq<Datum>)

  datatype HistoryPage = HistoryPage(
    selection: Selection,
    summary: Option<Summary>,
    groups: seq<YearGroup>,
    chart: Option<Chart>)

  function SeriesFacts(b: Bundle, series: Uuid): seq<MonthlyFact> {
    Filter((f: MonthlyFact) => f.series == series, b.monthly)
  }

  function RegionFacts(facts: seq<MonthlyFact>, region: Uuid): seq<MonthlyFact> {
    Filter((f: MonthlyFact) => f.region == region, facts)
  }

  predicate PricesReadable(f: MonthlyFact) {
    f.low > 0 && f.mean > 0 && f.high > 0 && f.low <= f.mean <= f.high
  }

  /** The check of one fact; a month that cannot be formatted escapes as a value error. */
  function FactProblem(f: MonthlyFact): Option<ReadError> {
    if !Formats(f.yearMonth) then Some(Malformed("Historical month is out of range"))
    else if !PricesReadable(f) then Some(Integrity("Published provider ranges are malformed."))
    else None
  }

  function FirstProblem(facts: seq<MonthlyFact>): (problem: Option<ReadError>)
    ensures problem.None? <==> forall f :: f in facts ==> FactProblem(f).None?
    ensures problem.Some? ==> exists f :: f in facts && FactProblem(f) == problem
  {
    if facts == [] then None
    else
      assert facts == [facts[0]] + facts[1..];
      if FactProblem(facts[0]).Some? then FactProblem(facts[0]) else FirstProblem(facts[1..])
  }

  function MonthTexts(rows: seq<MonthlyFact>): set<string> {
    set f | f in rows :: f.yearMonth
  }

  predicate DistinctMonths(rows: seq<MonthlyFact>) {
    forall i, j :: 0 <= i < j < |rows| ==> rows[i].yearMonth != rows[j].yearMonth
  }

  /** Whether a region has every month of the range that ends at the bundle's last month. */
  predicate HasCompleteMonths(rows: seq<MonthlyFact>, last: int, count: nat) {
    DistinctMonths(rows) && forall m :: m in ExpectedMonths(last, count) ==> m in MonthTexts(rows)
  }

  /** The dictionary by month, read at one key; a later row would win. */
  function RowOfMonth(rows: seq<MonthlyFact>, month: string): (f: MonthlyFact)
    requires month in MonthTexts(rows)
    ensures f in rows && f.yearMonth == month
  {
    var last := rows[|rows| - 1];
    var front := rows[..|rows| - 1];
    assert rows == front + [last];
    if last.yearMonth == month then last else RowOfMonth(front, month)
  }

  function DatumOf(f: MonthlyFact): Datum {
    Datum(f.yearMonth, f.mean, f.low, f.high)
  }

  /** The rows of the last months in calendar order, as chart data. */
  function SelectMonths(rows: seq<MonthlyFact>, last: int, count: nat)
    : Result<seq<Datum>, ReadError>
  {
    var expected := ExpectedMonths(last, count);
    if exists i :: 0 <= i < |expected| && expected[i] !in MonthTexts(rows) then
      Err(Integrity("The selected published monthly range is incomplete."))
    else
      Ok(seq(count, i requires 0 <= i < count && expected[i] in MonthTexts(rows) =>
        DatumOf(RowOfMonth(rows, expected[i]))))
  }

  function CompleteRegions(facts: seq<MonthlyFact>, last: int): set<Uuid> {
    set f | f in facts && HasCompleteMonths(RegionFacts(facts, f.region), last, 36) :: f.region
  }

  /** The checks of one selected region, from its rows. */
  function SelectRange(
    regions: set<Uuid>, rows: seq<MonthlyFact>, last: int, range: int)
    : Result<Selection, ReadError>
  {
    var allow60 := HasCompleteMonths(rows, last, 60);
    if range != 12 && range != 36 && !(range == 60 && allow60) then
      Err(Parameter("The selected range is not available for this region."))
    else
      match SelectMonths(rows, last, range)
      case Err(e) => Err(e)
      case Ok(data) => Ok(MonthsOfRegion(regions, allow60, data))
  }

  function SelectFrom(
    facts: seq<MonthlyFact>, regions: set<Uuid>, last: int, region: Option<Uuid>, range: int)
    : Result<Selection, ReadError>
  {
    if regions == {} then
      Err(Integrity("The published series has no complete 36-month region."))
    else if region.None? then
      if range != 36 then
        Err(Parameter("Select a region before changing the historical range."))
      else Ok(RegionsOnly(regions))
    else if region.value !in regions then
      Err(Parameter("The selected region is not available for this series."))
    else SelectRange(regions, RegionFacts(facts, region.value), last, range)
  }

  /** The page's selection for one series, before anything is drawn. */
  function SelectHistory(
    facts: seq<MonthlyFact>, monthMax: string, region: Option<Uuid>, range: int)
    : Result<Selection, ReadError>
  {
    var problem := FirstProblem(facts);
    if problem.Some? then Err(problem.value)
    else if facts != [] && !Formats(monthMax) then
      Err(Malformed("Historical month is out of range"))
    else if facts == [] then
      Err(Integrity("The published series has no complete 36-month region."))
    else
      SelectFrom(facts, CompleteRegions(facts, MonthNumber(monthMax)), MonthNumber(monthMax),
                 region, range)
  }

  // ---------------------------------------------------------------- the page

  /** What the page must be: the selection, drawn. */
  ghost predicate HistoryAnswer(
    facts: seq<MonthlyFact>, monthMax: string, region: Option<Uuid>, range: int,
    result: Result<HistoryPage, ReadError>, runs: seq<seq<Point>>)
  {
    match SelectHistory(facts, monthMax, region, range)
    case Err(e) => result == Err(e)
    case Ok(RegionsOnly(regions)) =>
      result == Ok(HistoryPage(RegionsOnly(regions), None, [], None))
    case Ok(MonthsOfRegion(regions, allow60, data)) =>
      if !ChartInput(data) then result.Err? && result.error.Integrity?
      else
        && result.Ok?
        && result.value.selection == MonthsOfRegion(regions, allow60, data)
        && result.value.summary.Some? && FirstExtremes(result.value.summary.value, data)
        && YearGroupsOf(result.value.groups, data)
        && result.value.chart.Some?
        && MaximalRuns(runs, Points(data))
        && Shows(result.value.chart.value, data, runs)
  }

  ghost predicate GroupsRegions(groups: map<Uuid, seq<MonthlyFact>>, facts: seq<MonthlyFact>) {
    && (forall f :: f in facts ==> f.region in groups)
    && (forall region :: region in groups ==>
          groups[region] == RegionFacts(facts, region) && groups[region] != [])
  }

  lemma RegionFactsAppend(facts: seq<MonthlyFact>, f: MonthlyFact, region: Uuid)
    ensures RegionFacts(facts + [f], region)
         == RegionFacts(facts, region) + (if f.region == region then [f] else [])
  {
    assert (facts + [f])[..|facts|] == facts;
  }

  lemma RegionWithRows(facts: seq<MonthlyFact>, region: Uuid)
    ensures RegionFacts(facts, region) != [] ==> exists f :: f in facts && f.region == region
  {
    if RegionFacts(facts, region) != [] {
      assert RegionFacts(facts, region)[0] in RegionFacts(facts, region);
    }
  }

  lemma GroupOneMore(groups: map<Uuid, seq<MonthlyFact>>, facts: seq<MonthlyFact>, f: MonthlyFact)
    requires GroupsRegions(groups, facts)
    ensures var rows := if f.region in groups then groups[f.region] else [];
            GroupsRegions(groups[f.region := rows + [f]], facts + [f])
  {
    RegionWithRows(facts, f.region);
    var rows := if f.region in groups then groups[f.region] else [];
    var next := groups[f.region := rows + [f]];
    forall region | region in next
      ensures next[region] == RegionFacts(facts + [f], region) && next[region] != []
    {
      RegionFactsAppend(facts, f, region);
    }
  }

  ghost predicate ReadableTo(facts: seq<MonthlyFact>, n: nat)
    requires n <= |facts|
  {
    forall k :: 0 <= k < n ==> FactProblem(facts[k]).None?
  }

  lemma ReadableOneMore(facts: seq<MonthlyFact>, n: nat)
    requires n < |facts| && ReadableTo(facts, n) && FactProblem(facts[n]).None?
    ensures ReadableTo(facts, n + 1)
  {
  }

  lemma AllReadable(facts: seq<MonthlyFact>)
    requires ReadableTo(facts, |facts|)
    ensures FirstProblem(facts) == None
  {
  }

  lemma {:induction false} FirstProblemAt(facts: seq<MonthlyFact>, i: nat)
    requires i < |facts| && FactProblem(facts[i]).Some? && ReadableTo(facts, i)
    ensures FirstProblem(facts) == FactProblem(facts[i])
  {
    if i > 0 {
      assert FactProblem(facts[0]).None?;
      assert ReadableTo(facts[1..], i - 1);
      FirstProblemAt(facts[1..], i - 1);
    }
  }

  lemma NoGroups()
    ensures GroupsRegions(map[], [])
  {
  }

  /** Each fact is validated in table order and filed under its region. */
  method GroupByRegion(facts: seq<MonthlyFact>)
    returns (problem: Option<ReadError>, byRegion: map<Uuid, seq<MonthlyFact>>)
    ensures problem == FirstProblem(facts)
    ensures problem.None? ==> GroupsRegions(byRegion, facts)
  {
    hide FactProblem, RegionFacts;
    byRegion := map[];
    NoGroups();
    for i := 0 to |facts|
      invariant ReadableTo(facts, i)
      invariant GroupsRegions(byRegion, facts[..i])
    {
      problem := FactProblem(facts[i]);
      if problem.Some? {
        FirstProblemAt(facts, i);
        return;
      }
      ReadableOneMore(facts, i);
      byRegion := AddToRegion(byRegion, facts[..i], facts[i]);
      assert facts[..i + 1] == facts[..i] + [facts[i]];
    }
    assert facts[..|facts|] == facts;
    AllReadable(facts);
    problem := None;
  }

  /** Filing a fact under its region keeps the table order within the region. */
  method AddToRegion(
    groups: map<Uuid, seq<MonthlyFact>>, ghost facts: seq<MonthlyFact>, f: MonthlyFact)
    returns (next: map<Uuid, seq<MonthlyFact>>)
    requires GroupsRegions(groups, facts)
    ensures GroupsRegions(next, facts + [f])
  {
    GroupOneMore(groups, facts, f);
    var rows := if f.region in groups then groups[f.region] else [];
    next := groups[f.region := rows + [f]];
  }

  lemma CompleteFromGroups(
    groups: map<Uuid, seq<MonthlyFact>>, facts: seq<MonthlyFact>, last: int)
    requires GroupsRegions(groups, facts)
    ensures (set region | region in groups && HasCompleteMonths(groups[region], last, 36))
         == CompleteRegions(facts, last)
  {
    forall region | region in groups
      ensures exists f :: f in facts && f.region == region
    {
      var f := groups[region][0];
      assert f in RegionFacts(facts, region);
    }
  }

  /** The regions that offer three full years. */
  method CompleteRegionsOf(
    groups: map<Uuid, seq<MonthlyFact>>, ghost facts: seq<MonthlyFact>, last: int)
    returns (complete: set<Uuid>)
    requires GroupsRegions(groups, facts)
    ensures complete == CompleteRegions(facts, last)
  {
    CompleteFromGroups(groups, facts, last);
    complete := set r | r in groups && HasCompleteMonths(groups[r], last, 36);
  }

  /** The validating loop and the complete regions, for facts whose months format. */
  method ReadRegions(facts: seq<MonthlyFact>, monthMax: string)
    returns (result: Result<set<Uuid>, ReadError>)
    ensures FirstProblem(facts).Some? ==> result == Err(FirstProblem(facts).value)
    ensures FirstProblem(facts).None? && facts != [] && !Formats(monthMax) ==>
              result == Err(Malformed("Historical month is out of range"))
    ensures FirstProblem(facts).None? && facts != [] && Formats(monthMax) ==>
              result == Ok(CompleteRegions(facts, MonthNumber(monthMax)))
    ensures facts == [] ==> result.Ok? && result.value == {}
  {
    var problem, byRegion := GroupByRegion(facts);
    if problem.Some? {
      return Err(problem.value);
    }
    if facts == [] {
      return Ok({});
    }
    if !Formats(monthMax) {
      return Err(Malformed("Historical month is out of range"));
    }
    var complete := CompleteRegionsOf(byRegion, facts, MonthNumber(monthMax));
    result := Ok(complete);
  }

  /** The checks up to the selected rows. */
  method SelectPage(facts: seq<MonthlyFact>, monthMax: string, region: Option<Uuid>, range: int)
    returns (selection: Result<Selection, ReadError>)
    ensures selection == SelectHistory(facts, monthMax, region, range)
  {
    var regions := ReadRegions(facts, monthMax);
    if regions.Err? {
      return Err(regions.error);
    }
    if facts == [] {
      return Err(Integrity("The published series has no complete 36-month region."));
    }
    selection := SelectFrom(facts, regions.value, MonthNumber(monthMax), region, range);
  }

  method HistoryContext(b: Bundle, series: Uuid, region: Option<Uuid>, range: int)
    returns (result: Result<HistoryPage, ReadError>, ghost runs: seq<seq<Point>>)
    ensures HistoryAnswer(SeriesFacts(b, series), b.monthMax, region, range, result, runs)
    ensures var s := SelectHistory(SeriesFacts(b, series), b.monthMax, region, range);
            && (s.Err? ==> result == Err(s.error))
            && (result.Ok? ==> s.Ok? && result.value.selection == s.value)
  {
    runs := [];
    var selection := SelectPage(SeriesFacts(b, series), b.monthMax, region, range);
    if selection.Err? {
      return Err(selection.error), [];
    }
    if selection.value.RegionsOnly? {
      return Ok(HistoryPage(selection.value, None, [], None)), [];
    }
    var page, drawn := DrawSelection(selection.value);
    result, runs := page, drawn;
  }

  /** The block that turns presentation errors into an integrity error. */
  method DrawSelection(selection: Selection)
    returns (result: Result<HistoryPage, ReadError>, ghost runs: seq<seq<Point>>)
    requires selection.MonthsOfRegion?
    ensures result.Ok? <==> ChartInput(selection.data)
    ensures result.Err? ==> result.error.Integrity?
    ensures result.Ok? ==>
              && result.value.selection == selection
              && result.value.summary.Some?
              && FirstExtremes(result.value.summary.value, selection.data)
              && YearGroupsOf(result.value.groups, selection.data)
              && result.value.chart.Some?
              && MaximalRuns(runs, Points(selection.data))
              && Shows(result.value.chart.value, selection.data, runs)
  {
    var malformed := Integrity("Published monthly presentation facts are malformed.");
    var summary := BuildHistorySummary(selection.data);
    var groups := BuildHistoryYearGroups(selection.data);
    var chart, drawn := BuildHistoryChart(selection.data);
    if summary.Err? || groups.Err? || chart.Err? {
      return Err(malformed), [];
    }
    result := Ok(HistoryPage(selection, Some(summary.value), groups.value, Some(chart.value)));
    runs := drawn;
  }

  // ---------------------------------------------------------------- sealed bundles

  /** Every monthly fact of the series is dated in year 1 or later. */
  ghost predicate FromYearOne(b: Bundle, series: Uuid) {
    forall f :: f in b.monthly && f.series == series ==> Formats(f.yearMonth)
  }

  lemma {:induction false} FilterKeepsUniqueMonths(p: MonthlyFact -> bool, rows: seq<MonthlyFact>)
    requires MonthlyUnique(rows)
    ensures MonthlyUnique(Filter(p, rows))
  {
    if rows != [] {
      var front, last := rows[..|rows| - 1], rows[|rows| - 1];
      FilterKeepsUniqueMonths(p, front);
      var kept := Filter(p, front);
      forall i | 0 <= i < |kept|
        ensures !(kept[i].series == last.series && kept[i].region == last.region
                  && kept[i].yearMonth == last.yearMonth)
      {
        assert kept[i] in front;
        var k :| 0 <= k < |front| && front[k] == kept[i];
        assert rows[k] == kept[i];
      }
    }
  }

  lemma RegionRowsAreDistinct(b: Bundle, src: Sources, series: Uuid, region: Uuid)
    requires SealedFrom(b, src)
    ensures DistinctMonths(RegionFacts(SeriesFacts(b, series), region))
  {
    FilterKeepsUniqueMonths((f: MonthlyFact) => f.series == series, b.monthly);
    FilterKeepsUniqueMonths((f: MonthlyFact) => f.region == region, SeriesFacts(b, series));
    var rows := RegionFacts(SeriesFacts(b, series), region);
    forall i, j | 0 <= i < j < |rows|
      ensures rows[i].yearMonth != rows[j].yearMonth
    {
      assert rows[i] in rows && rows[j] in rows;
      assert rows[i] in SeriesFacts(b, series) && rows[j] in SeriesFacts(b, series);
    }
  }

  lemma MonthTextIff(b: Bundle, series: Uuid, region: Uuid, month: string)
    ensures month in MonthTexts(RegionFacts(SeriesFacts(b, series), region))
       <==> HasMonthly(b.monthly, series, region, month)
  {
    if HasMonthly(b.monthly, series, region, month) {
      var f :| f in b.monthly && f.series == series && f.region == region && f.yearMonth == month;
      assert f in RegionFacts(SeriesFacts(b, series), region);
    }
  }

  /** On a sealed bundle the reader's completeness is the seal's. */
  lemma CompleteIffCovers(b: Bundle, src: Sources, series: Uuid, region: Uuid, count: nat)
    requires SealedFrom(b, src)
    ensures HasCompleteMonths(RegionFacts(SeriesFacts(b, series), region),
                              MonthNumber(b.monthMax), count)
       <==> CoversMonths(b.monthly, series, region, b.monthMax, count)
  {
    RegionRowsAreDistinct(b, src, series, region);
    forall m | m in ExpectedMonths(MonthNumber(b.monthMax), count)
      ensures m in MonthTexts(RegionFacts(SeriesFacts(b, series), region))
         <==> HasMonthly(b.monthly, series, region, m)
    {
      MonthTextIff(b, series, region, m);
    }
  }

  lemma LastMonthFormats(b: Bundle, src: Sources, f: MonthlyFact)
    requires SealedFrom(b, src) && f in b.monthly && Formats(f.yearMonth)
    ensures Formats(b.monthMax)
  {
    assert MonthlyStored(f, src.monthly);
    TextOrderIsMonthOrder(b.monthMax, f.yearMonth);
    FormatsIsPatternFromYearOne(f.yearMonth);
    FormatsIsPatternFromYearOne(b.monthMax);
  }

  lemma SealedFactProblem(b: Bundle, src: Sources, f: MonthlyFact)
    requires SealedFrom(b, src) && f in b.monthly
    ensures FactProblem(f).None? <==> Formats(f.yearMonth)
    ensures FactProblem(f).Some? ==> FactProblem(f).value.Malformed?
  {
    assert MonthlyStored(f, src.monthly);
  }

  /** The only presentation failure of a sealed series is a month in year 0. */
  lemma ProblemIffYearZero(b: Bundle, src: Sources, series: Uuid)
    requires SealedFrom(b, src)
    ensures var problem := FirstProblem(SeriesFacts(b, series));
            && (problem.None? <==> FromYearOne(b, series))
            && (problem.Some? ==> problem.value.Malformed?)
  {
    var facts := SeriesFacts(b, series);
    forall f | f in facts
      ensures FactProblem(f).None? <==> Formats(f.yearMonth)
      ensures FactProblem(f).Some? ==> FactProblem(f).value.Malformed?
    {
      SealedFactProblem(b, src, f);
    }
  }

  lemma CoveredRegionHasFact(b: Bundle, series: Uuid, region: Uuid)
    returns (f: MonthlyFact)
    requires |b.monthMax| == 6 && AllDigits(b.monthMax)
    requires CoversMonths(b.monthly, series, region, b.monthMax, 36)
    ensures f in SeriesFacts(b, series) && f.region == region
  {
    var month := ExpectedMonths(MonthNumber(b.monthMax), 36)[0];
    assert month in ExpectedMonths(MonthNumber(b.monthMax), 36);
    assert HasMonthly(b.monthly, series, region, month);
    f :| f in b.monthly && f.series == series && f.region == region && f.yearMonth == month;
  }

  lemma CompleteRegionsAre(b: Bundle, src: Sources, series: Uuid, region: Uuid)
    requires SealedFrom(b, src)
    ensures region in CompleteRegions(SeriesFacts(b, series), MonthNumber(b.monthMax))
       <==> CoversMonths(b.monthly, series, region, b.monthMax, 36)
  {
    CompleteIffCovers(b, src, series, region, 36);
    if CoversMonths(b.monthly, series, region, b.monthMax, 36) {
      var f := CoveredRegionHasFact(b, series, region);
    }
  }

  // ---------------------------------------------------------------- the selected months

  /** The data are exactly the stored facts of the last `count` months, in order. */
  ghost predicate LastMonths(
    b: Bundle, series: Uuid, region: Uuid, count: nat, data: seq<Datum>)
    requires |b.monthMax| == 6 && AllDigits(b.monthMax)
  {
    && |data| == count
    && forall i :: 0 <= i < count ==>
         IsMonth(b, series, region, MonthNumber(b.monthMax) - count + 1 + i, data[i])
  }

  ghost predicate IsMonth(b: Bundle, series: Uuid, region: Uuid, month: int, d: Datum) {
    && DatumValid(d) && d.high < PRICE_LIMIT
    && MonthNumber(d.yearMonth) == month
    && exists f :: f in b.monthly && f.series == series && f.region == region
                   && d.yearMonth == f.yearMonth
                   && d.mean == f.mean && d.low == f.low && d.high == f.high
  }

  /** A fact that can be shown for a region of the series. */
  ghost predicate Showable(b: Bundle, series: Uuid, region: Uuid, f: MonthlyFact) {
    && f in b.monthly && f.series == series && f.region == region
    && Formats(f.yearMonth) && RangeStored(f.low, f.mean, f.high)
  }

  lemma RegionFactsAreShowable(b: Bundle, src: Sources, series: Uuid, region: Uuid)
    requires SealedFrom(b, src) && FromYearOne(b, series)
    ensures forall f :: f in RegionFacts(SeriesFacts(b, series), region) ==>
              Showable(b, series, region, f)
  {
    forall f | f in RegionFacts(SeriesFacts(b, series), region)
      ensures Showable(b, series, region, f)
    {
      assert MonthlyStored(f, src.monthly);
    }
  }

  lemma SelectedMonth(b: Bundle, series: Uuid, region: Uuid, number: int, f: MonthlyFact)
    requires Showable(b, series, region, f) && f.yearMonth == MonthValue(number)
    ensures IsMonth(b, series, region, number, DatumOf(f))
  {
    ValueThenNumber(number);
    FormatsIsPatternFromYearOne(f.yearMonth);
  }

  lemma SelectsEachMonth(rows: seq<MonthlyFact>, last: int, count: nat, expected: seq<string>)
    requires expected == ExpectedMonths(last, count)
    requires forall m :: m in expected ==> m in MonthTexts(rows)
    ensures forall i :: 0 <= i < count ==> expected[i] in MonthTexts(rows)
    ensures var data := SelectMonths(rows, last, count);
            && data.Ok? && |data.value| == count
            && forall i :: 0 <= i < count ==>
                 data.value[i] == DatumOf(RowOfMonth(rows, expected[i]))
  {
    forall i | 0 <= i < count
      ensures expected[i] in MonthTexts(rows)
    {
      assert expected[i] in expected;
    }
  }

  lemma SelectedMonths(b: Bundle, src: Sources, series: Uuid, region: Uuid, count: nat)
    requires SealedFrom(b, src) && FromYearOne(b, series)
    requires CoversMonths(b.monthly, series, region, b.monthMax, count)
    ensures var data := SelectMonths(RegionFacts(SeriesFacts(b, series), region),
                                     MonthNumber(b.monthMax), count);
            data.Ok? && LastMonths(b, series, region, count, data.value)
  {
    var rows, last := RegionFacts(SeriesFacts(b, series), region), MonthNumber(b.monthMax);
    forall m | m in ExpectedMonths(last, count)
      ensures m in MonthTexts(rows)
    {
      MonthTextIff(b, series, region, m);
    }
    RegionFactsAreShowable(b, src, series, region);
    ShowableMonths(b, series, region, rows, count);
  }

  lemma ShowableMonths(
    b: Bundle, series: Uuid, region: Uuid, rows: seq<MonthlyFact>, count: nat)
    requires |b.monthMax| == 6 && AllDigits(b.monthMax)
    requires forall f :: f in rows ==> Showable(b, series, region, f)
    requires forall m :: m in ExpectedMonths(MonthNumber(b.monthMax), count) ==>
               m in MonthTexts(rows)
    ensures var data := SelectMonths(rows, MonthNumber(b.monthMax), count);
            data.Ok? && LastMonths(b, series, region, count, data.value)
  {
    var last := MonthNumber(b.monthMax);
    var expected := ExpectedMonths(last, count);
    SelectsEachMonth(rows, last, count, expected);
    var data := SelectMonths(rows, last, count).value;
    forall i | 0 <= i < count
      ensures IsMonth(b, series, region, last - count + 1 + i, data[i])
    {
      SelectedMonth(b, series, region, last - count + 1 + i, RowOfMonth(rows, expected[i]));
    }
  }

  lemma ConsecutiveData(data: seq<Datum>, first: int)
    requires |data| >= 2
    requires forall i :: 0 <= i < |data| ==>
               DatumValid(data[i]) && MonthNumber(data[i].yearMonth) == first + i
    ensures ChartInput(data) && Consecutive(Points(data)) && Chronological(Points(data))
  {
    var points := Points(data);
    assert forall i :: 0 <= i < |points| ==> points[i].month == first + i;
  }

  /** Consecutive months make one run and no gap marker. */
  lemma LastMonthsChart(
    b: Bundle, series: Uuid, region: Uuid, count: nat, data: seq<Datum>, runs: seq<seq<Point>>)
    requires |b.monthMax| == 6 && AllDigits(b.monthMax)
    requires count >= 2 && LastMonths(b, series, region, count, data)
    ensures ChartInput(data) && PricesFit(data)
    ensures Gaps(Points(data)) == []
    ensures MaximalRuns(runs, Points(data)) ==> runs == [Points(data)]
  {
    var first := MonthNumber(b.monthMax) - count + 1;
    forall i | 0 <= i < |data|
      ensures DatumValid(data[i]) && data[i].high < PRICE_LIMIT
      ensures MonthNumber(data[i].yearMonth) == first + i
    {
      assert IsMonth(b, series, region, first + i, data[i]);
    }
    ConsecutiveData(data, first);
    OneRunOnly(Points(data), runs);
  }

  lemma OneRunOnly(points: seq<Point>, runs: seq<seq<Point>>)
    requires points != [] && Chronological(points) && Consecutive(points)
    ensures Gaps(points) == []
    ensures MaximalRuns(runs, points) ==> runs == [points]
  {
    ConsecutiveHasNoGap(points);
    if MaximalRuns(runs, points) {
      ConsecutiveIsOneRun(points);
      MaximalRunsUnique(runs, [points], points);
    }
  }

  // ---------------------------------------------------------------- the reader's promise

  /** Whether a region and range may be asked for. */
  ghost predicate Offered(b: Bundle, series: Uuid, region: Option<Uuid>, range: int)
    requires |b.monthMax| == 6 && AllDigits(b.monthMax)
  {
    match region
    case None => range == 36
    case Some(r) =>
      && CoversMonths(b.monthly, series, r, b.monthMax, 36)
      && (range == 12 || range == 36
          || (range == 60 && CoversMonths(b.monthly, series, r, b.monthMax, 60)))
  }

  /** The shorter range is covered with the longer one. */
  lemma CoversFewer(b: Bundle, series: Uuid, region: Uuid, fewer: nat, count: nat)
    requires |b.monthMax| == 6 && AllDigits(b.monthMax)
    requires fewer <= count && CoversMonths(b.monthly, series, region, b.monthMax, count)
    ensures CoversMonths(b.monthly, series, region, b.monthMax, fewer)
  {
    var last := MonthNumber(b.monthMax);
    forall m | m in ExpectedMonths(last, fewer)
      ensures HasMonthly(b.monthly, series, region, m)
    {
      var i :| 0 <= i < fewer && ExpectedMonths(last, fewer)[i] == m;
      assert ExpectedMonths(last, count)[count - fewer + i] == m;
      assert m in ExpectedMonths(last, count);
    }
  }

  lemma SelectRangeOnSealed(
    b: Bundle, src: Sources, series: Uuid, region: Uuid, range: int, regions: set<Uuid>)
    requires SealedFrom(b, src) && FromYearOne(b, series)
    requires CoversMonths(b.monthly, series, region, b.monthMax, 36)
    ensures var s := SelectRange(regions, RegionFacts(SeriesFacts(b, series), region),
                                 MonthNumber(b.monthMax), range);
            if Offered(b, series, Some(region), range) then
              s.Ok? && s.value.MonthsOfRegion? && range >= 2
              && LastMonths(b, series, region, range, s.value.data)
              && s.value.regions == regions
              && (s.value.allow60 <==> CoversMonths(b.monthly, series, region, b.monthMax, 60))
            else
              s.Err? && s.error.Parameter?
  {
    CompleteIffCovers(b, src, series, region, 60);
    if Offered(b, series, Some(region), range) {
      if range == 12 {
        CoversFewer(b, series, region, 12, 36);
      }
      SelectedMonths(b, src, series, region, range);
    }
  }

  ghost predicate SelectionPromise(
    b: Bundle, series: Uuid, region: Option<Uuid>, range: int, s: Result<Selection, ReadError>)
    requires |b.monthMax| == 6 && AllDigits(b.monthMax)
  {
    if !Offered(b, series, region, range) then s.Err? && s.error.Parameter?
    else
      && s.Ok?
      && (forall r :: r in s.value.regions
            <==> CoversMonths(b.monthly, series, r, b.monthMax, 36))
      && match region
         case None => s.value.RegionsOnly?
         case Some(r) =>
           s.value.MonthsOfRegion? && range >= 2
           && LastMonths(b, series, r, range, s.value.data)
           && (s.value.allow60 <==> CoversMonths(b.monthly, series, r, b.monthMax, 60))
  }

  lemma SelectFromOnSealed(
    b: Bundle, src: Sources, series: Uuid, region: Option<Uuid>, range: int, regions: set<Uuid>)
    requires SealedFrom(b, src) && FromYearOne(b, series)
    requires series in MonthlySeries(b.monthly)
    requires forall r :: r in regions <==> CoversMonths(b.monthly, series, r, b.monthMax, 36)
    ensures SelectionPromise(b, series, region, range,
                             SelectFrom(SeriesFacts(b, series), regions, MonthNumber(b.monthMax),
                                        region, range))
  {
    assert HasCompleteRegion(b.monthly, series, b.monthMax, 36);
    var complete: Uuid :| CoversMonths(b.monthly, series, complete, b.monthMax, 36);
    assert complete in regions;
    if region.Some? && region.value in regions {
      SelectRangeOnSealed(b, src, series, region.value, range, regions);
    }
  }

  lemma SealedSeriesHasFact(b: Bundle, src: Sources, series: Uuid) returns (f: MonthlyFact)
    requires SealedFrom(b, src) && series in MonthlySeries(b.monthly)
    ensures f in SeriesFacts(b, series) && f in b.monthly
  {
    f :| f in b.monthly && f.series == series;
  }

  lemma SelectHistoryOnSealed(
    b: Bundle, src: Sources, series: Uuid, region: Option<Uuid>, range: int)
    requires SealedFrom(b, src) && FromYearOne(b, series)
    requires series in MonthlySeries(b.monthly)
    ensures SelectionPromise(b, series, region, range,
                             SelectHistory(SeriesFacts(b, series), b.monthMax, region, range))
  {
    ProblemIffYearZero(b, src, series);
    var f := SealedSeriesHasFact(b, src, series);
    LastMonthFormats(b, src, f);
    var regions := CompleteRegions(SeriesFacts(b, series), MonthNumber(b.monthMax));
    forall r
      ensures r in regions <==> CoversMonths(b.monthly, series, r, b.monthMax, 36)
    {
      CompleteRegionsAre(b, src, series, r);
    }
    SelectFromOnSealed(b, src, series, region, range, regions);
  }

  /** What a page without a selected region shows. */
  ghost predicate OffersRegions(b: Bundle, series: Uuid, page: HistoryPage)
    requires |b.monthMax| == 6 && AllDigits(b.monthMax)
  {
    && page.selection.RegionsOnly?
    && (forall r :: r in page.selection.regions
          <==> CoversMonths(b.monthly, series, r, b.monthMax, 36))
    && page.summary.None? && page.groups == [] && page.chart.None?
  }

  /** One line and one band through all months of the data, and no gap. */
  ghost predicate OneSegment(chart: Chart, data: seq<Datum>) {
    && MonthlyData(data) && data != []
    && chart.gapMarkers == []
    && |chart.meanSegments| == 1 && |chart.rangeSegments| == 1
    && exists low, high ::
         && PriceScale(data, low, high)
         && MeanVertices(chart.points, data, FirstMonth(data), LastMonth(data), low, high)
         && MeanVertices(chart.meanSegments[0], data, FirstMonth(data), LastMonth(data), low, high)
         && BandVertices(chart.rangeSegments[0], data, FirstMonth(data), LastMonth(data), low, high)
  }

  /** What a page with a selected region shows. */
  ghost predicate ShowsRegion(
    b: Bundle, series: Uuid, region: Uuid, range: int, page: HistoryPage)
    requires |b.monthMax| == 6 && AllDigits(b.monthMax)
  {
    && page.selection.MonthsOfRegion? && range >= 2
    && (forall r :: r in page.selection.regions
          <==> CoversMonths(b.monthly, series, r, b.monthMax, 36))
    && (page.selection.allow60 <==> CoversMonths(b.monthly, series, region, b.monthMax, 60))
    && var data := page.selection.data;
       && LastMonths(b, series, region, range, data)
       && page.summary.Some? && FirstExtremes(page.summary.value, data)
       && (exists cuts :: CutByYear(page.groups, data, cuts))
       && page.chart.Some? && OneSegment(page.chart.value, data)
  }

  /** What a reader of a sealed series is promised about the history page. */
  ghost predicate HistoryPromise(
    b: Bundle, series: Uuid, region: Option<Uuid>, range: int,
    result: Result<HistoryPage, ReadError>)
    requires |b.monthMax| == 6 && AllDigits(b.monthMax)
  {
    && (result.Ok? <==> FromYearOne(b, series) && Offered(b, series, region, range))
    && (result.Err? ==>
          if FromYearOne(b, series) then result.error.Parameter? else result.error.Malformed?)
    && (result.Ok? ==>
          if region.None? then OffersRegions(b, series, result.value)
          else ShowsRegion(b, series, region.value, range, result.value))
  }

  lemma DrawsOneSegment(chart: Chart, data: seq<Datum>, run: seq<Point>, low: int, high: int)
    requires MonthlyData(data) && data != [] && DataOf(run) == data
    requires Draws(chart, data, [run], [], low, high)
    ensures OneSegment(chart, data)
  {
    hide MeanVertices, BandVertices, PriceScale, MissingMonths, FirstMonth, LastMonth;
    assert [run][0] == run;
  }

  lemma DrawnSelectionPromise(
    b: Bundle, series: Uuid, region: Uuid, range: nat, data: seq<Datum>, chart: Chart,
    runs: seq<seq<Point>>)
    requires |b.monthMax| == 6 && AllDigits(b.monthMax)
    requires range >= 2 && LastMonths(b, series, region, range, data)
    requires ChartInput(data) && MaximalRuns(runs, Points(data)) && Shows(chart, data, runs)
    ensures OneSegment(chart, data)
  {
    hide Draws, OneSegment, Shows, ScaleOf, LastMonths, MaximalRuns, Drawable, Gaps;
    LastMonthsChart(b, series, region, range, data, runs);
    OnlyRunIsDrawn(Points(data));
    ChartDrawsData(chart, data, runs);
    assert DataOf(Points(data)) == data;
    DrawsOneSegment(chart, data, Points(data), ScaleOf(data).low, ScaleOf(data).high);
  }

  lemma OnlyRunIsDrawn(points: seq<Point>)
    requires |points| >= 2
    ensures Drawable([points]) == [points]
  {
    assert [points][..0] == [];
  }

  /**
   * For a sealed series every integrity error of the history page is unreachable. The page
   * fails only on a month in year 0, which the stored pattern admits, or on a region or range
   * that is not offered; otherwise it shows exactly the asked number of consecutive months up
   * to the last one, with their stored prices, summarised, cut into years and drawn as one
   * segment without gap markers, every vertex in its exact place.
   */
  lemma HistoryReadSucceeds(
    b: Bundle, src: Sources, series: Uuid, region: Option<Uuid>, range: int,
    result: Result<HistoryPage, ReadError>, runs: seq<seq<Point>>)
    requires SealedFrom(b, src) && series in MonthlySeries(b.monthly)
    requires HistoryAnswer(SeriesFacts(b, series), b.monthMax, region, range, result, runs)
    ensures HistoryPromise(b, series, region, range, result)
  {
    ProblemIffYearZero(b, src, series);
    if FromYearOne(b, series) {
      SelectHistoryOnSealed(b, src, series, region, range);
      if Offered(b, series, region, range) && region.Some? {
        var s := SelectHistory(SeriesFacts(b, series), b.monthMax, region, range);
        LastMonthsChart(b, series, region.value, range, s.value.data, runs);
        DrawnSelectionPromise(b, series, region.value, range, s.value.data,
                              result.value.chart.value, runs);
        var cuts := YearGroupsCut(result.value.groups, s.value.data);
      }
    }
  }
}
