/** The range meter, the history summary and the year groups of the public ledger. */
module HistoryLedger {
  import opened Common
  import opened DecimalArithmetic
  import opened DecimalCoordinates
  import opened Months
  import opened HistoryChart

  // ---------------------------------------------------------------- range meter

  datatype Meter = Meter(minimum: int, mean: int, maximum: int)

  /** One position on the shared 0-100 scale, in hundredths. */
  function MeterPosition(value: int, scaleMinimum: int, scaleMaximum: int): int
    requires scaleMinimum <= value <= scaleMaximum
  {
    if scaleMinimum == scaleMaximum then 5000
    else Coordinate(0, false, 100 * (value - scaleMinimum), scaleMaximum - scaleMinimum)
  }

  function RangeMeter(
    minimum: int, mean: int, maximum: int, scaleMinimum: int, scaleMaximum: int)
    : Result<Meter, string>
  {
    if !(scaleMinimum <= minimum <= mean <= maximum <= scaleMaximum) then
      Err("Range-meter values are not ordered")
    else
      Ok(Meter(MeterPosition(minimum, scaleMinimum, scaleMaximum),
               MeterPosition(mean, scaleMinimum, scaleMaximum),
               MeterPosition(maximum, scaleMinimum, scaleMaximum)))
  }

  lemma MeterInRange(n: nat, span: nat)
    requires 0 < span < SPAN_LIMIT && n <= 100 * span
    ensures InRange(0, false, n, span) && Numerator(0, false, n, span) == n
  {
  }

  /** The printed position is the exact percentage rounded half up. */
  lemma MeterIsExact(value: int, low: int, high: int)
    requires low <= value <= high && low < high && high - low < SPAN_LIMIT
    ensures MeterPosition(value, low, high) == HalfUp(10000 * (value - low), high - low)
  {
    var n, span := 100 * (value - low), high - low;
    MeterInRange(n, span);
    CoordinateIsExact(0, false, n, span, 10000 * (value - low));
  }

  /** The exact places of three prices on a scale, in hundredths of a percent of it. */
  ghost predicate MeterShows(
    m: Meter, minimum: int, mean: int, maximum: int, low: int, high: int)
  {
    if low >= high then m == Meter(5000, 5000, 5000)
    else
      && low <= minimum && low <= mean && low <= maximum
      && m.minimum == HalfUp(10000 * (minimum - low), high - low)
      && m.mean == HalfUp(10000 * (mean - low), high - low)
      && m.maximum == HalfUp(10000 * (maximum - low), high - low)
  }

  lemma RangeMeterIsExact(minimum: int, mean: int, maximum: int, low: int, high: int)
    requires low <= minimum <= mean <= maximum <= high && high - low < SPAN_LIMIT
    ensures var m := RangeMeter(minimum, mean, maximum, low, high);
            m.Ok? && MeterShows(m.value, minimum, mean, maximum, low, high)
  {
    if low < high {
      MeterIsExact(minimum, low, high);
      MeterIsExact(mean, low, high);
      MeterIsExact(maximum, low, high);
    }
  }

  lemma ScaledEnds(span: nat)
    requires span > 0
    ensures HalfUp(0, span) == 0 && HalfUp(10000 * span, span) == 10000
  {
    WholeQuotient(10000, span);
    WholeQuotient(0, span);
  }

  lemma ExactOrder(value: int, higher: int, low: int, high: int, x: int, y: int)
    requires low <= value <= higher <= high && low < high
    requires x == HalfUp(10000 * (value - low), high - low)
    requires y == HalfUp(10000 * (higher - low), high - low)
    ensures x <= y
    ensures value == low ==> x == 0
    ensures higher == high ==> y == 10000
  {
    HalfUpMonotone(10000 * (value - low), 10000 * (higher - low), high - low);
    ScaledEnds(high - low);
  }

  lemma MeterMonotone(value: int, higher: int, low: int, high: int, x: int, y: int)
    requires low <= value <= higher <= high && low < high && high - low < SPAN_LIMIT
    requires x == MeterPosition(value, low, high)
    requires y == MeterPosition(higher, low, high)
    ensures x <= y
    ensures value == low ==> x == 0
    ensures higher == high ==> y == 10000
  {
    MeterIsExact(value, low, high);
    MeterIsExact(higher, low, high);
    ExactOrder(value, higher, low, high, x, y);
  }

  lemma MeterOrder(minimum: int, mean: int, maximum: int, low: int, high: int, m: Meter)
    requires low <= minimum <= mean <= maximum <= high && low < high && high - low < SPAN_LIMIT
    requires m.minimum == MeterPosition(minimum, low, high)
    requires m.mean == MeterPosition(mean, low, high)
    requires m.maximum == MeterPosition(maximum, low, high)
    ensures 0 <= m.minimum <= m.mean <= m.maximum <= 10000
    ensures minimum == low ==> m.minimum == 0
    ensures maximum == high ==> m.maximum == 10000
  {
    MeterMonotone(low, minimum, low, high, MeterPosition(low, low, high), m.minimum);
    MeterMonotone(minimum, mean, low, high, m.minimum, m.mean);
    MeterMonotone(mean, maximum, low, high, m.mean, m.maximum);
    MeterMonotone(maximum, high, low, high, m.maximum, MeterPosition(high, low, high));
  }

  /** A meter keeps the order of its three prices within [0, 100] and spans it at the extremes. */
  lemma MeterGeometry(minimum: int, mean: int, maximum: int, low: int, high: int)
    requires high - low < SPAN_LIMIT
    ensures RangeMeter(minimum, mean, maximum, low, high).Ok?
       <==> low <= minimum <= mean <= maximum <= high
    ensures var m := RangeMeter(minimum, mean, maximum, low, high);
            m.Ok? ==>
              && 0 <= m.value.minimum <= m.value.mean <= m.value.maximum <= 10000
              && (low < high && minimum == low ==> m.value.minimum == 0)
              && (low < high && maximum == high ==> m.value.maximum == 10000)
              && (low == high ==> m.value == Meter(5000, 5000, 5000))
  {
    var m := RangeMeter(minimum, mean, maximum, low, high);
    if m.Ok? && low < high {
      MeterOrder(minimum, mean, maximum, low, high, m.value);
    }
  }

  // ---------------------------------------------------------------- summary

  datatype Summary = Summary(latest: Datum, lowest: Datum, highest: Datum)

  /** Python's min: the first element with the least key. */
  method FirstLowest(data: seq<Datum>) returns (k: nat)
    requires data != []
    ensures k < |data|
    ensures forall i :: 0 <= i < |data| ==> data[k].mean <= data[i].mean
    ensures forall i :: 0 <= i < k ==> data[k].mean < data[i].mean
  {
    k := 0;
    for i := 1 to |data|
      invariant k < i
      invariant forall j :: 0 <= j < i ==> data[k].mean <= data[j].mean
      invariant forall j :: 0 <= j < k ==> data[k].mean < data[j].mean
    {
      if data[i].mean < data[k].mean {
        k := i;
      }
    }
  }

  /** Python's max: the first element with the greatest key. */
  method FirstHighest(data: seq<Datum>) returns (k: nat)
    requires data != []
    ensures k < |data|
    ensures forall i :: 0 <= i < |data| ==> data[i].mean <= data[k].mean
    ensures forall i :: 0 <= i < k ==> data[i].mean < data[k].mean
  {
    k := 0;
    for i := 1 to |data|
      invariant k < i
      invariant forall j :: 0 <= j < i ==> data[j].mean <= data[k].mean
      invariant forall j :: 0 <= j < k ==> data[j].mean < data[k].mean
    {
      if data[i].mean > data[k].mean {
        k := i;
      }
    }
  }

  ghost predicate FirstExtremes(s: Summary, data: seq<Datum>) {
    && data != []
    && s.latest == data[|data| - 1]
    && (exists k :: 0 <= k < |data| && s.lowest == data[k]
          && (forall i :: 0 <= i < |data| ==> data[k].mean <= data[i].mean)
          && (forall i :: 0 <= i < k ==> data[k].mean < data[i].mean))
    && (exists k :: 0 <= k < |data| && s.highest == data[k]
          && (forall i :: 0 <= i < |data| ==> data[i].mean <= data[k].mean)
          && (forall i :: 0 <= i < k ==> data[i].mean < data[k].mean))
  }

  method BuildHistorySummary(data: seq<Datum>) returns (result: Result<Summary, string>)
    ensures result.Ok? <==> data != [] && ChronologicalData(data)
    ensures result.Ok? ==> FirstExtremes(result.value, data)
  {
    if !ChronologicalData(data) {
      return Err("Monthly points must be unique and chronological");
    }
    if data == [] {
      return Err("A monthly summary requires at least one point");
    }
    var lowest := FirstLowest(data);
    var highest := FirstHighest(data);
    result := Ok(Summary(data[|data| - 1], data[lowest], data[highest]));
  }

  // ---------------------------------------------------------------- year groups

  datatype YearGroup = YearGroup(year: string, isLatest: bool, points: seq<Datum>)

  function Year(d: Datum): string
    requires Formats(d.yearMonth)
  {
    d.yearMonth[..4]
  }

  function YearNumber(d: Datum): nat
    requires Formats(d.yearMonth)
  {
    NumberOf(Year(d))
  }

  lemma YearsFollowMonths(a: Datum, b: Datum)
    requires Formats(a.yearMonth) && Formats(b.yearMonth)
    requires MonthNumber(a.yearMonth) < MonthNumber(b.yearMonth)
    ensures YearNumber(a) <= YearNumber(b)
    ensures YearNumber(a) == YearNumber(b) <==> Year(a) == Year(b)
  {
    if YearNumber(a) == YearNumber(b) {
      NumberInjective(Year(a), Year(b));
    }
  }

  /** The dictionary of lists in insertion order. */
  datatype Bucket = Bucket(year: string, points: seq<Datum>)

  function Concatenated(buckets: seq<Bucket>): seq<Datum> {
    if buckets == [] then []
    else Concatenated(buckets[..|buckets| - 1]) + buckets[|buckets| - 1].points
  }

  ghost predicate BucketHolds(b: Bucket) {
    && b.points != []
    && forall i :: 0 <= i < |b.points| ==>
         Formats(b.points[i].yearMonth) && Year(b.points[i]) == b.year
  }

  /** Consecutive stretches of the data, one per year, in increasing years. */
  ghost predicate Bucketed(buckets: seq<Bucket>, data: seq<Datum>) {
    && Concatenated(buckets) == data
    && (forall k :: 0 <= k < |buckets| ==> BucketHolds(buckets[k]))
    && (forall k, l :: 0 <= k < l < |buckets| ==>
          YearNumber(buckets[k].points[0]) < YearNumber(buckets[l].points[0]))
  }

  lemma BucketYearNumber(b: Bucket, d: Datum)
    requires BucketHolds(b) && Formats(d.yearMonth)
    ensures YearNumber(b.points[0]) == YearNumber(d) <==> b.year == Year(d)
  {
    if YearNumber(b.points[0]) == YearNumber(d) {
      NumberInjective(Year(b.points[0]), Year(d));
    }
  }

  /** Where the points of a year are collected, or -1 while the year has none. */
  function FindBucket(buckets: seq<Bucket>, year: string): (k: int)
    ensures -1 <= k < |buckets|
    ensures k >= 0 ==> buckets[k].year == year
    ensures k == -1 ==> forall i :: 0 <= i < |buckets| ==> buckets[i].year != year
  {
    if buckets == [] then -1
    else if buckets[|buckets| - 1].year == year then |buckets| - 1
    else FindBucket(buckets[..|buckets| - 1], year)
  }

  lemma ConcatenatedAppend(buckets: seq<Bucket>, b: Bucket)
    ensures Concatenated(buckets + [b]) == Concatenated(buckets) + b.points
  {
    assert (buckets + [b])[..|buckets|] == buckets;
  }

  /** The last point of a bucketed prefix is in the last bucket. */
  lemma LastBucketYear(buckets: seq<Bucket>, data: seq<Datum>)
    requires Bucketed(buckets, data) && data != []
    ensures buckets != []
    ensures Formats(data[|data| - 1].yearMonth)
    ensures buckets[|buckets| - 1].year == Year(data[|data| - 1])
  {
    var last := buckets[|buckets| - 1];
    assert data == Concatenated(buckets[..|buckets| - 1]) + last.points;
    assert data[|data| - 1] == last.points[|last.points| - 1];
  }

  lemma EmptyBuckets(buckets: seq<Bucket>, data: seq<Datum>)
    requires Bucketed(buckets, data)
    ensures buckets == [] <==> data == []
  {
    if buckets != [] {
      assert BucketHolds(buckets[|buckets| - 1]);
    }
  }

  /** A later month belongs to the last bucket or to none. */
  lemma NextMonthBucket(buckets: seq<Bucket>, data: seq<Datum>, d: Datum)
    requires Bucketed(buckets, data) && Formats(d.yearMonth)
    requires data != [] ==>
               Formats(data[|data| - 1].yearMonth)
               && MonthNumber(data[|data| - 1].yearMonth) < MonthNumber(d.yearMonth)
    ensures var k := FindBucket(buckets, Year(d));
            k == -1 || k == |buckets| - 1
    ensures forall k :: 0 <= k < |buckets| ==> YearNumber(buckets[k].points[0]) <= YearNumber(d)
  {
    EmptyBuckets(buckets, data);
    if data != [] {
      LastBucketYear(buckets, data);
      YearsFollowMonths(data[|data| - 1], d);
      BucketYearNumber(buckets[|buckets| - 1], data[|data| - 1]);
      var k := FindBucket(buckets, Year(d));
      if k >= 0 {
        BucketYearNumber(buckets[k], d);
      }
    }
  }

  lemma AddToLastBucket(buckets: seq<Bucket>, data: seq<Datum>, d: Datum)
    requires Bucketed(buckets, data) && buckets != [] && Formats(d.yearMonth)
    requires buckets[|buckets| - 1].year == Year(d)
    ensures var last := buckets[|buckets| - 1];
            Bucketed(buckets[|buckets| - 1 := Bucket(last.year, last.points + [d])], data + [d])
  {
    var front, last := buckets[..|buckets| - 1], buckets[|buckets| - 1];
    var grown := Bucket(last.year, last.points + [d]);
    var next := buckets[|buckets| - 1 := grown];
    assert next == front + [grown] && buckets == front + [last];
    ConcatenatedAppend(front, last);
    ConcatenatedAppend(front, grown);
    assert Concatenated(front) + (last.points + [d]) == (Concatenated(front) + last.points) + [d];
    assert grown.points[0] == last.points[0];
  }

  lemma AddNewBucket(buckets: seq<Bucket>, data: seq<Datum>, d: Datum)
    requires Bucketed(buckets, data) && Formats(d.yearMonth)
    requires forall k :: 0 <= k < |buckets| ==> YearNumber(buckets[k].points[0]) < YearNumber(d)
    ensures Bucketed(buckets + [Bucket(Year(d), [d])], data + [d])
  {
    ConcatenatedAppend(buckets, Bucket(Year(d), [d]));
  }

  function Reversed(groups: seq<YearGroup>): seq<YearGroup> {
    seq(|groups|, i requires 0 <= i < |groups| => groups[|groups| - 1 - i])
  }

  function GroupBuckets(groups: seq<YearGroup>): seq<Bucket> {
    seq(|groups|, i requires 0 <= i < |groups| => Bucket(groups[i].year, groups[i].points))
  }

  /** Newest year first, one open group, and oldest first the groups read as the data. */
  ghost predicate YearGroupsOf(groups: seq<YearGroup>, data: seq<Datum>) {
    && groups != []
    && Bucketed(GroupBuckets(Reversed(groups)), data)
    && forall k :: 0 <= k < |groups| ==> (groups[k].isLatest <==> k == 0)
  }

  /** One iteration of the grouping loop. */
  method AddPoint(buckets: seq<Bucket>, ghost data: seq<Datum>, d: Datum)
    returns (next: seq<Bucket>)
    requires Bucketed(buckets, data) && Formats(d.yearMonth)
    requires data != [] ==>
               Formats(data[|data| - 1].yearMonth)
               && MonthNumber(data[|data| - 1].yearMonth) < MonthNumber(d.yearMonth)
    ensures Bucketed(next, data + [d])
  {
    NextMonthBucket(buckets, data, d);
    var k := FindBucket(buckets, Year(d));
    if k >= 0 {
      AddToLastBucket(buckets, data, d);
      next := buckets[k := Bucket(buckets[k].year, buckets[k].points + [d])];
    } else {
      forall l | 0 <= l < |buckets|
        ensures YearNumber(buckets[l].points[0]) < YearNumber(d)
      {
        BucketYearNumber(buckets[l], d);
      }
      AddNewBucket(buckets, data, d);
      next := buckets + [Bucket(Year(d), [d])];
    }
  }

  /** The list comprehension over the reversed dictionary. */
  function GroupsNewestFirst(buckets: seq<Bucket>, latestYear: string): seq<YearGroup> {
    seq(|buckets|, i requires 0 <= i < |buckets| =>
      var b := buckets[|buckets| - 1 - i];
      YearGroup(b.year, b.year == latestYear, b.points))
  }

  lemma GroupsAreYearGroups(buckets: seq<Bucket>, data: seq<Datum>)
    requires Bucketed(buckets, data) && data != [] && Formats(data[|data| - 1].yearMonth)
    ensures YearGroupsOf(GroupsNewestFirst(buckets, Year(data[|data| - 1])), data)
  {
    LastBucketYear(buckets, data);
    var last := data[|data| - 1];
    var groups := GroupsNewestFirst(buckets, Year(last));
    assert GroupBuckets(Reversed(groups)) == buckets;
    var n := |buckets|;
    BucketYearNumber(buckets[n - 1], last);
    forall k | 0 <= k < n
      ensures groups[k].isLatest <==> k == 0
    {
      BucketYearNumber(buckets[n - 1 - k], last);
    }
  }

  method BuildHistoryYearGroups(data: seq<Datum>) returns (result: Result<seq<YearGroup>, string>)
    ensures result.Ok? <==> data != [] && ChronologicalData(data)
    ensures result.Ok? ==> YearGroupsOf(result.value, data)
  {
    if !ChronologicalData(data) {
      return Err("Monthly points must be unique and chronological");
    }
    if data == [] {
      return Err("History year groups require at least one point");
    }
    var buckets: seq<Bucket> := [];
    for i := 0 to |data|
      invariant Bucketed(buckets, data[..i])
    {
      assert data[..i + 1] == data[..i] + [data[i]];
      if i > 0 {
        assert Points(data)[i - 1].month < Points(data)[i].month;
        assert data[..i][i - 1] == data[i - 1];
      }
      buckets := AddPoint(buckets, data[..i], data[i]);
    }
    assert data[..|data|] == data;
    GroupsAreYearGroups(buckets, data);
    result := Ok(GroupsNewestFirst(buckets, Year(data[|data| - 1])));
  }

  // ---------------------------------------------------------------- the groups as slices

  ghost predicate SliceOf(points: seq<Datum>, data: seq<Datum>, from: nat, to: nat) {
    from <= to <= |data| && points == data[from..to]
  }

  /** A non-empty slice of the data whose months all begin with the group's year. */
  ghost predicate YearSlice(g: YearGroup, data: seq<Datum>, from: nat, to: nat) {
    && from < to && SliceOf(g.points, data, from, to)
    && forall i :: 0 <= i < |g.points| ==>
         |g.points[i].yearMonth| == 6 && g.points[i].yearMonth[..4] == g.year
  }

  /** The data are cut, from their end, into slices of one year each, one group per slice. */
  ghost predicate CutByYear(groups: seq<YearGroup>, data: seq<Datum>, cuts: seq<nat>) {
    && |cuts| == |groups| + 1 && cuts[0] == |data| && cuts[|groups|] == 0
    && (forall k :: 0 <= k < |groups| ==> YearSlice(groups[k], data, cuts[k + 1], cuts[k]))
    && (forall k :: 0 <= k < |groups| ==> (groups[k].isLatest <==> k == 0))
    && (forall k, l :: 0 <= k < l < |groups| ==> groups[k].year != groups[l].year)
  }

  ghost predicate StartsOf(buckets: seq<Bucket>, data: seq<Datum>, starts: seq<nat>) {
    && |starts| == |buckets| + 1 && starts[0] == 0 && starts[|buckets|] == |data|
    && forall k :: 0 <= k < |buckets| ==>
         SliceOf(buckets[k].points, data, starts[k], starts[k + 1])
  }

  lemma {:induction false} BucketStarts(buckets: seq<Bucket>) returns (starts: seq<nat>)
    ensures StartsOf(buckets, Concatenated(buckets), starts)
  {
    if buckets == [] {
      starts := [0];
    } else {
      var front, last := buckets[..|buckets| - 1], buckets[|buckets| - 1];
      var earlier := BucketStarts(front);
      starts := earlier + [|Concatenated(buckets)|];
      StartsAppend(front, Concatenated(front), earlier, last);
      assert buckets == front + [last];
    }
  }

  lemma SliceStays(points: seq<Datum>, data: seq<Datum>, more: seq<Datum>, from: nat, to: nat)
    requires SliceOf(points, data, from, to)
    ensures SliceOf(points, data + more, from, to)
  {
    assert (data + more)[from..to] == data[from..to];
  }

  lemma StartsAppend(buckets: seq<Bucket>, data: seq<Datum>, starts: seq<nat>, b: Bucket)
    requires StartsOf(buckets, data, starts)
    ensures StartsOf(buckets + [b], data + b.points, starts + [|data + b.points|])
  {
    hide SliceOf;
    var all, next, longer := data + b.points, starts + [|data + b.points|], buckets + [b];
    forall k | 0 <= k < |longer|
      ensures SliceOf(longer[k].points, all, next[k], next[k + 1])
    {
      if k < |buckets| {
        SliceStays(buckets[k].points, data, b.points, starts[k], starts[k + 1]);
      } else {
        LastSlice(data, b.points);
      }
    }
  }

  lemma LastSlice(data: seq<Datum>, points: seq<Datum>)
    ensures SliceOf(points, data + points, |data|, |data + points|)
  {
  }

  lemma YearsDiffer(buckets: seq<Bucket>, data: seq<Datum>, k: nat, l: nat)
    requires Bucketed(buckets, data) && k < l < |buckets|
    ensures buckets[k].year != buckets[l].year
  {
    assert BucketHolds(buckets[k]) && BucketHolds(buckets[l]);
    BucketYearNumber(buckets[k], buckets[l].points[0]);
  }

  lemma BucketIsYearSlice(g: YearGroup, data: seq<Datum>, from: nat, to: nat)
    requires BucketHolds(Bucket(g.year, g.points)) && SliceOf(g.points, data, from, to)
    ensures YearSlice(g, data, from, to)
  {
  }

  function Backwards(starts: seq<nat>): (cuts: seq<nat>)
    ensures |cuts| == |starts|
    ensures forall i :: 0 <= i < |cuts| ==> cuts[i] == starts[|starts| - 1 - i]
  {
    seq(|starts|, i requires 0 <= i < |starts| => starts[|starts| - 1 - i])
  }

  /** Year groups are the slices of the data by the first four digits of the month. */
  lemma YearGroupsCut(groups: seq<YearGroup>, data: seq<Datum>) returns (cuts: seq<nat>)
    requires YearGroupsOf(groups, data)
    ensures CutByYear(groups, data, cuts)
  {
    hide YearSlice, SliceOf, BucketHolds;
    var buckets, n := GroupBuckets(Reversed(groups)), |groups|;
    var starts := BucketStarts(buckets);
    cuts := Backwards(starts);
    forall k | 0 <= k < n
      ensures YearSlice(groups[k], data, cuts[k + 1], cuts[k])
    {
      var j := n - 1 - k;
      assert buckets[j] == Bucket(groups[k].year, groups[k].points);
      assert cuts[k] == starts[j + 1] && cuts[k + 1] == starts[j];
      BucketIsYearSlice(groups[k], data, cuts[k + 1], cuts[k]);
    }
    forall k, l | 0 <= k < l < n
      ensures groups[k].year != groups[l].year
    {
      YearsDiffer(buckets, data, n - 1 - l, n - 1 - k);
    }
  }
}
