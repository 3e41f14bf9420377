/**
 * The checks of the history page on whatever facts the table holds, sealed or not: which
 * error an unreadable fact causes, which regions are complete, and what may be asked for.
 */
module HistoryChecks {
  import opened Common
  import opened Months
  import opened HistoricalFacts
  import opened HistoricalDailyRead
  import opened HistoricalHistoryRead
  import opened HistoryChart

  /** A month that can be formatted, and ordered positive prices. */
  ghost predicate Readable(f: MonthlyFact) {
    Formats(f.yearMonth) && 0 < f.low <= f.mean <= f.high
  }

  lemma FactProblemIff(f: MonthlyFact)
    ensures FactProblem(f).None? <==> Readable(f)
    ensures FactProblem(f).Some? ==>
              if Formats(f.yearMonth) then FactProblem(f).value.Integrity?
              else FactProblem(f).value.Malformed?
  {
  }

  /** The first unreadable fact is at place k, and its month or its prices are to blame. */
  ghost predicate BlamedOn(facts: seq<MonthlyFact>, k: nat, problem: ReadError) {
    && k < |facts| && !Readable(facts[k])
    && (forall i :: 0 <= i < k ==> Readable(facts[i]))
    && if Formats(facts[k].yearMonth) then problem.Integrity? else problem.Malformed?
  }

  ghost predicate AllReadableFacts(facts: seq<MonthlyFact>) {
    forall i :: 0 <= i < |facts| ==> Readable(facts[i])
  }

  /** The first unreadable fact in table order decides which error the page reports. */
  lemma {:induction false} FirstProblemMeans(facts: seq<MonthlyFact>)
    ensures AllReadableFacts(facts) <==> FirstProblem(facts).None?
    ensures FirstProblem(facts).Some? ==>
              exists k :: BlamedOn(facts, k, FirstProblem(facts).value)
  {
    if facts != [] {
      FactProblemIff(facts[0]);
      if Readable(facts[0]) {
        FirstProblemMeans(facts[1..]);
        assert AllReadableFacts(facts) <==> AllReadableFacts(facts[1..]) by {
          if AllReadableFacts(facts) {
            assert forall i :: 0 <= i < |facts[1..]| ==> facts[1..][i] == facts[i + 1];
          }
          if AllReadableFacts(facts[1..]) {
            assert forall i :: 1 <= i < |facts| ==> facts[i] == facts[1..][i - 1];
          }
        }
        if FirstProblem(facts).Some? {
          var k :| BlamedOn(facts[1..], k, FirstProblem(facts[1..]).value);
          BlameShifts(facts, k, FirstProblem(facts).value);
        }
      } else {
        assert BlamedOn(facts, 0, FirstProblem(facts).value);
      }
    }
  }

  lemma BlameShifts(facts: seq<MonthlyFact>, k: nat, problem: ReadError)
    requires facts != [] && Readable(facts[0]) && BlamedOn(facts[1..], k, problem)
    ensures BlamedOn(facts, k + 1, problem)
  {
    assert facts[k + 1] == facts[1..][k];
    forall i | 0 <= i < k + 1
      ensures Readable(facts[i])
    {
      assert i > 0 ==> facts[i] == facts[1..][i - 1];
    }
  }

  // ---------------------------------------------------------------- complete regions

  ghost predicate HasFact(facts: seq<MonthlyFact>, region: Uuid, month: string) {
    exists f :: f in facts && f.region == region && f.yearMonth == month
  }

  /** The region has each of the last months. */
  ghost predicate HasEveryMonth(facts: seq<MonthlyFact>, region: Uuid, last: int, count: nat) {
    forall m: int :: last - count < m <= last ==> HasFact(facts, region, MonthValue(m))
  }

  ghost predicate NoMonthTwice(facts: seq<MonthlyFact>, region: Uuid) {
    forall i, j :: 0 <= i < j < |facts| && facts[i].region == region == facts[j].region ==>
      facts[i].yearMonth != facts[j].yearMonth
  }

  ghost predicate CompleteIn(facts: seq<MonthlyFact>, region: Uuid, last: int, count: nat) {
    HasEveryMonth(facts, region, last, count) && NoMonthTwice(facts, region)
  }

  lemma NoMonthTwiceAppend(facts: seq<MonthlyFact>, last: MonthlyFact, region: Uuid)
    ensures NoMonthTwice(facts + [last], region)
       <==> && NoMonthTwice(facts, region)
            && (last.region == region ==> !HasFact(facts, region, last.yearMonth))
  {
    var all, n := facts + [last], |facts|;
    assert all[n] == last && forall i :: 0 <= i < n ==> all[i] == facts[i];
    if NoMonthTwice(all, region) {
      forall i, j | 0 <= i < j < n && facts[i].region == region == facts[j].region
        ensures facts[i].yearMonth != facts[j].yearMonth
      {
        assert all[i].yearMonth != all[j].yearMonth;
      }
      forall f | f in facts && f.region == region && last.region == region
        ensures f.yearMonth != last.yearMonth
      {
        var i :| 0 <= i < n && facts[i] == f;
        assert all[i].yearMonth != all[n].yearMonth;
      }
    }
    if NoMonthTwice(facts, region) && (last.region == region ==> !HasFact(facts, region, last.yearMonth)) {
      forall i, j | 0 <= i < j < |all| && all[i].region == region == all[j].region
        ensures all[i].yearMonth != all[j].yearMonth
      {
        assert all[i] in facts;
      }
    }
  }

  lemma DistinctMonthsAppend(rows: seq<MonthlyFact>, last: MonthlyFact)
    ensures DistinctMonths(rows + [last])
       <==> DistinctMonths(rows) && forall f :: f in rows ==> f.yearMonth != last.yearMonth
  {
    var all, n := rows + [last], |rows|;
    assert all[n] == last && forall i :: 0 <= i < n ==> all[i] == rows[i];
    if DistinctMonths(all) {
      forall i, j | 0 <= i < j < n
        ensures rows[i].yearMonth != rows[j].yearMonth
      {
        assert all[i].yearMonth != all[j].yearMonth;
      }
      forall f | f in rows
        ensures f.yearMonth != last.yearMonth
      {
        var i :| 0 <= i < n && rows[i] == f;
        assert all[i].yearMonth != all[n].yearMonth;
      }
    }
  }

  lemma RegionHasFact(facts: seq<MonthlyFact>, region: Uuid, month: string)
    ensures HasFact(facts, region, month) <==> month in MonthTexts(RegionFacts(facts, region))
  {
    if f :| f in facts && f.region == region && f.yearMonth == month {
      assert f in RegionFacts(facts, region);
    }
  }

  lemma {:induction false} DistinctMonthsIff(facts: seq<MonthlyFact>, region: Uuid)
    ensures DistinctMonths(RegionFacts(facts, region)) <==> NoMonthTwice(facts, region)
  {
    if facts != [] {
      var front, last := facts[..|facts| - 1], facts[|facts| - 1];
      DistinctMonthsIff(front, region);
      assert facts == front + [last];
      RegionFactsAppend(front, last, region);
      NoMonthTwiceAppend(front, last, region);
      var rows := RegionFacts(front, region);
      DistinctMonthsAppend(rows, last);
      RegionHasFact(front, region, last.yearMonth);
      assert last.yearMonth in MonthTexts(rows)
         <==> exists f :: f in rows && f.yearMonth == last.yearMonth;
      assert rows + [] == rows;
    }
  }

  lemma EveryMonthIff(facts: seq<MonthlyFact>, region: Uuid, last: int, count: nat)
    ensures (forall m :: m in ExpectedMonths(last, count) ==>
               m in MonthTexts(RegionFacts(facts, region)))
       <==> HasEveryMonth(facts, region, last, count)
  {
    hide MonthValue, HasFact, MonthTexts, RegionFacts;
    var expected := ExpectedMonths(last, count);
    forall m: int | last - count < m <= last
      ensures MonthValue(m) in expected
    {
      assert expected[m - last + count - 1] == MonthValue(m);
    }
    forall text | text in expected
      ensures exists m: int :: last - count < m <= last && text == MonthValue(m)
    {
      var i :| 0 <= i < count && expected[i] == text;
      assert text == MonthValue(last - count + 1 + i);
    }
    forall text
      ensures HasFact(facts, region, text) <==> text in MonthTexts(RegionFacts(facts, region))
    {
      RegionHasFact(facts, region, text);
    }
  }

  lemma CompleteMonthsIff(facts: seq<MonthlyFact>, region: Uuid, last: int, count: nat)
    ensures HasCompleteMonths(RegionFacts(facts, region), last, count)
       <==> CompleteIn(facts, region, last, count)
  {
    DistinctMonthsIff(facts, region);
    EveryMonthIff(facts, region, last, count);
  }

  /** The regions offered are those with every one of the last 36 months, none of them twice. */
  lemma CompleteRegionsIff(facts: seq<MonthlyFact>, last: int, region: Uuid)
    ensures region in CompleteRegions(facts, last) <==> CompleteIn(facts, region, last, 36)
  {
    CompleteMonthsIff(facts, region, last, 36);
    if CompleteIn(facts, region, last, 36) {
      assert HasFact(facts, region, MonthValue(last));
    }
  }

  // ---------------------------------------------------------------- what may be asked for

  ghost predicate RangeOffered(facts: seq<MonthlyFact>, region: Uuid, last: int, range: int) {
    range == 12 || range == 36 || (range == 60 && CompleteIn(facts, region, last, 60))
  }

  /** The shown datum is a stored row of the region and month. */
  ghost predicate RowOf(facts: seq<MonthlyFact>, region: Uuid, month: string, d: Datum) {
    exists f :: && f in facts && f.region == region && f.yearMonth == month
                && d.yearMonth == f.yearMonth
                && d.mean == f.mean && d.low == f.low && d.high == f.high
  }

  /** The outcome for one region with three full years. */
  ghost predicate RegionOutcome(
    facts: seq<MonthlyFact>, last: int, region: Uuid, range: int, s: Result<Selection, ReadError>)
  {
    if !RangeOffered(facts, region, last, range) then s.Err? && s.error.Parameter?
    else
      && s.Ok? && s.value.MonthsOfRegion? && range >= 0
      && (s.value.allow60 <==> CompleteIn(facts, region, last, 60))
      && |s.value.data| == range
      && forall i :: 0 <= i < range ==>
           RowOf(facts, region, MonthValue(last - range + 1 + i), s.value.data[i])
  }

  lemma SelectedRow(facts: seq<MonthlyFact>, region: Uuid, month: string)
    requires month in MonthTexts(RegionFacts(facts, region))
    ensures var f := RowOfMonth(RegionFacts(facts, region), month);
            f in facts && f.region == region && f.yearMonth == month
  {
  }

  lemma SelectedRows(facts: seq<MonthlyFact>, last: int, region: Uuid, count: nat)
    requires HasEveryMonth(facts, region, last, count)
    ensures var data := SelectMonths(RegionFacts(facts, region), last, count);
            && data.Ok? && |data.value| == count
            && forall i :: 0 <= i < count ==>
                 RowOf(facts, region, MonthValue(last - count + 1 + i), data.value[i])
  {
    hide MonthValue;
    var rows := RegionFacts(facts, region);
    EveryMonthIff(facts, region, last, count);
    SelectsEachMonth(rows, last, count, ExpectedMonths(last, count));
    var data := SelectMonths(rows, last, count).value;
    forall i | 0 <= i < count
      ensures RowOf(facts, region, MonthValue(last - count + 1 + i), data[i])
    {
      SelectedRow(facts, region, ExpectedMonths(last, count)[i]);
    }
  }

  lemma FewerMonths(facts: seq<MonthlyFact>, region: Uuid, last: int, fewer: nat, count: nat)
    requires fewer <= count && HasEveryMonth(facts, region, last, count)
    ensures HasEveryMonth(facts, region, last, fewer)
  {
  }

  lemma SelectRangeIs(rows: seq<MonthlyFact>, last: int, range: nat, regions: set<Uuid>)
    requires range == 12 || range == 36 || (range == 60 && HasCompleteMonths(rows, last, 60))
    requires SelectMonths(rows, last, range).Ok?
    ensures SelectRange(regions, rows, last, range)
         == Ok(MonthsOfRegion(regions, HasCompleteMonths(rows, last, 60),
                              SelectMonths(rows, last, range).value))
  {
  }

  lemma RangeSelects(
    facts: seq<MonthlyFact>, last: int, region: Uuid, range: int, regions: set<Uuid>)
    requires CompleteIn(facts, region, last, 36) && RangeOffered(facts, region, last, range)
    ensures RegionOutcome(facts, last, region, range,
                          SelectRange(regions, RegionFacts(facts, region), last, range))
  {
    hide HasEveryMonth, NoMonthTwice, SelectMonths, RowOf, HasCompleteMonths, RegionFacts,
         SelectRange, MonthValue;
    CompleteMonthsIff(facts, region, last, 60);
    if range == 12 {
      FewerMonths(facts, region, last, 12, 36);
    }
    SelectedRows(facts, last, region, range);
    SelectRangeIs(RegionFacts(facts, region), last, range, regions);
  }

  lemma RegionOutcomes(
    facts: seq<MonthlyFact>, last: int, region: Uuid, range: int, regions: set<Uuid>)
    requires CompleteIn(facts, region, last, 36)
    ensures RegionOutcome(facts, last, region, range,
                          SelectRange(regions, RegionFacts(facts, region), last, range))
  {
    if RangeOffered(facts, region, last, range) {
      RangeSelects(facts, last, region, range, regions);
    } else {
      CompleteMonthsIff(facts, region, last, 60);
    }
  }

  ghost predicate NoCompleteRegion(facts: seq<MonthlyFact>, last: int) {
    forall r :: !CompleteIn(facts, r, last, 36)
  }

  /** The outcome for readable facts of a series and a last month that can be formatted. */
  ghost predicate ReadableOutcome(
    facts: seq<MonthlyFact>, last: int, region: Option<Uuid>, range: int,
    s: Result<Selection, ReadError>)
  {
    && (s.Ok? ==> forall r :: r in s.value.regions <==> CompleteIn(facts, r, last, 36))
    && if NoCompleteRegion(facts, last) then s.Err? && s.error.Integrity?
       else
         match region
         case None =>
           if range == 36 then s.Ok? && s.value.RegionsOnly? else s.Err? && s.error.Parameter?
         case Some(r) =>
           if CompleteIn(facts, r, last, 36) then RegionOutcome(facts, last, r, range, s)
           else s.Err? && s.error.Parameter?
  }

  lemma ReadableOutcomes(
    facts: seq<MonthlyFact>, last: int, region: Option<Uuid>, range: int)
    ensures ReadableOutcome(facts, last, region, range,
                            SelectFrom(facts, CompleteRegions(facts, last), last, region, range))
  {
    hide CompleteIn, RegionOutcome, CompleteRegions;
    var regions := CompleteRegions(facts, last);
    forall r
      ensures r in regions <==> CompleteIn(facts, r, last, 36)
    {
      CompleteRegionsIff(facts, last, r);
    }
    if region.Some? && region.value in regions {
      RegionOutcomes(facts, last, region.value, range, regions);
      SameRegions(facts, last, region.value, range, regions);
    }
  }

  lemma SameRegions(
    facts: seq<MonthlyFact>, last: int, region: Uuid, range: int, regions: set<Uuid>)
    ensures var s := SelectRange(regions, RegionFacts(facts, region), last, range);
            s.Ok? ==> s.value.regions == regions
  {
  }

  /**
   * The checks of the history page in full: the first unreadable fact, no facts at all, a last
   * month in year 0, and then the region and range against what the facts offer.
   */
  lemma SelectionOutcomes(
    facts: seq<MonthlyFact>, monthMax: string, region: Option<Uuid>, range: int)
    requires |monthMax| == 6 && AllDigits(monthMax)
    ensures var s := SelectHistory(facts, monthMax, region, range);
            if !AllReadableFacts(facts) then s.Err? && exists k :: BlamedOn(facts, k, s.error)
            else if facts == [] then s.Err? && s.error.Integrity?
            else if !Formats(monthMax) then s.Err? && s.error.Malformed?
            else ReadableOutcome(facts, MonthNumber(monthMax), region, range, s)
  {
    hide ReadableOutcome, AllReadableFacts, BlamedOn, SelectFrom, CompleteRegions;
    FirstProblemMeans(facts);
    ReadableOutcomes(facts, MonthNumber(monthMax), region, range);
  }
}
