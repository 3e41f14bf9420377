/**
 * The monthly history chart and the regional range meter: consecutive-month runs, gap markers
 * and SVG coordinates. Prices are integers in hundredths of a won, coordinates integers in
 * hundredths of an SVG unit.
 */
module HistoryChart {
  import opened Common
  import opened DecimalArithmetic
  import opened DecimalCoordinates
  import opened Months

  datatype Datum = Datum(yearMonth: string, mean: int, low: int, high: int)

  /** One datum with its month number, as the run builder indexes it. */
  datatype Point = Point(month: int, datum: Datum)

  const PLOT_LEFT := 64
  const PLOT_WIDTH := 640
  const PLOT_BOTTOM := 240
  const PLOT_HEIGHT := 224

  predicate PricesValid(d: Datum) {
    0 < d.low <= d.mean <= d.high
  }

  predicate DatumValid(d: Datum) {
    PricesValid(d) && Formats(d.yearMonth)
  }

  predicate Chronological(points: seq<Point>) {
    forall i, j :: 0 <= i < j < |points| ==> points[i].month < points[j].month
  }

  function PointOf(d: Datum): Point
    requires DatumValid(d)
  {
    Point(MonthNumber(d.yearMonth), d)
  }

  function Points(data: seq<Datum>): seq<Point>
    requires forall i :: 0 <= i < |data| ==> DatumValid(data[i])
  {
    seq(|data|, i requires 0 <= i < |data| => PointOf(data[i]))
  }

  /** Prices below this bound fit their column: fourteen digits of hundredths. */
  const PRICE_LIMIT := 100_000_000_000_000

  predicate PricesFit(data: seq<Datum>) {
    forall i :: 0 <= i < |data| ==> data[i].high < PRICE_LIMIT
  }

  /** What every presentation builder checks: valid data in strictly increasing months. */
  predicate ChronologicalData(data: seq<Datum>) {
    && (forall i :: 0 <= i < |data| ==> DatumValid(data[i]))
    && Chronological(Points(data))
  }

  // ---------------------------------------------------------------- runs

  function Flatten(runs: seq<seq<Point>>): seq<Point> {
    if runs == [] then [] else Flatten(runs[..|runs| - 1]) + runs[|runs| - 1]
  }

  ghost predicate Consecutive(run: seq<Point>) {
    forall i, j :: 0 <= i && j == i + 1 < |run| ==> run[j].month == run[i].month + 1
  }

  ghost predicate GapBetween(left: seq<Point>, right: seq<Point>) {
    left != [] && right != [] && left[|left| - 1].month + 1 != right[0].month
  }

  /** A partition of the data into consecutive runs, none of which can be extended. */
  ghost predicate MaximalRuns(runs: seq<seq<Point>>, data: seq<Point>) {
    && Flatten(runs) == data
    && (forall i :: 0 <= i < |runs| ==> runs[i] != [] && Consecutive(runs[i]))
    && (forall i, j :: 0 <= i && j == i + 1 < |runs| ==> GapBetween(runs[i], runs[j]))
  }

  lemma FlattenLast(runs: seq<seq<Point>>, run: seq<Point>)
    ensures Flatten(runs + [run]) == Flatten(runs) + run
  {
    assert (runs + [run])[..|runs|] == runs;
  }

  lemma RunsStart(runs: seq<seq<Point>>, data: seq<Point>, p: Point)
    requires MaximalRuns(runs, data)
    requires runs == [] || runs[|runs| - 1][|runs[|runs| - 1]| - 1].month + 1 != p.month
    ensures MaximalRuns(runs + [[p]], data + [p])
  {
    var next := runs + [[p]];
    FlattenLast(runs, [p]);
    assert Consecutive([p]);
    forall i, j | 0 <= i && j == i + 1 < |next|
      ensures GapBetween(next[i], next[j])
    {
      if j < |runs| {
        assert GapBetween(runs[i], runs[j]);
      }
    }
  }

  lemma RunsExtend(runs: seq<seq<Point>>, data: seq<Point>, p: Point)
    requires MaximalRuns(runs, data) && runs != []
    requires runs[|runs| - 1][|runs[|runs| - 1]| - 1].month + 1 == p.month
    ensures MaximalRuns(runs[..|runs| - 1] + [runs[|runs| - 1] + [p]], data + [p])
  {
    var front, last := runs[..|runs| - 1], runs[|runs| - 1];
    var next := front + [last + [p]];
    assert runs == front + [last];
    FlattenLast(front, last);
    FlattenLast(front, last + [p]);
    assert Flatten(front) + (last + [p]) == (Flatten(front) + last) + [p];
    forall i, j | 0 <= i && j == i + 1 < |next|
      ensures GapBetween(next[i], next[j])
    {
      assert GapBetween(runs[i], runs[j]);
    }
  }

  /** The loop that starts a new run whenever a month does not follow the previous one. */
  method IndexRuns(points: seq<Point>) returns (runs: seq<seq<Point>>)
    ensures MaximalRuns(runs, points)
  {
    runs := [];
    for i := 0 to |points|
      invariant MaximalRuns(runs, points[..i])
    {
      var p := points[i];
      assert points[..i + 1] == points[..i] + [p];
      if runs == [] || p.month != runs[|runs| - 1][|runs[|runs| - 1]| - 1].month + 1 {
        RunsStart(runs, points[..i], p);
        runs := runs + [[p]];
      } else {
        RunsExtend(runs, points[..i], p);
        runs := runs[..|runs| - 1] + [runs[|runs| - 1] + [p]];
      }
    }
    assert points[..|points|] == points;
  }

  ghost predicate Follows(data: seq<Point>, i: int)
    requires 0 < i < |data|
  {
    data[i].month == data[i - 1].month + 1
  }

  /** Where the last run starts: months follow each other from there, and not before. */
  lemma LastRunStart(runs: seq<seq<Point>>, data: seq<Point>)
    requires MaximalRuns(runs, data) && runs != []
    ensures var start := |data| - |runs[|runs| - 1]|;
            && 0 <= start < |data|
            && runs[|runs| - 1] == data[start..]
            && (forall i :: start < i < |data| ==> Follows(data, i))
            && (start > 0 ==> !Follows(data, start))
  {
    var front, last := runs[..|runs| - 1], runs[|runs| - 1];
    assert data == Flatten(front) + last;
    var start := |data| - |last|;
    forall i | start < i < |data|
      ensures Follows(data, i)
    {
      assert data[i] == last[i - start] && data[i - 1] == last[i - start - 1];
    }
    if start > 0 {
      var before := front[|front| - 1];
      assert GapBetween(runs[|runs| - 2], runs[|runs| - 1]);
      assert Flatten(front) == Flatten(front[..|front| - 1]) + before;
      assert data[start - 1] == before[|before| - 1] && data[start] == last[0];
    }
  }

  lemma {:induction false} FrontIsMaximal(runs: seq<seq<Point>>, data: seq<Point>)
    requires MaximalRuns(runs, data) && runs != []
    ensures MaximalRuns(runs[..|runs| - 1], data[..|data| - |runs[|runs| - 1]|])
  {
    var front := runs[..|runs| - 1];
    assert data == Flatten(front) + runs[|runs| - 1];
    forall i, j | 0 <= i && j == i + 1 < |front|
      ensures GapBetween(front[i], front[j])
    {
      assert GapBetween(runs[i], runs[j]);
    }
  }

  /** There is only one partition into maximal runs. */
  lemma {:induction false} MaximalRunsUnique(
    a: seq<seq<Point>>, b: seq<seq<Point>>, data: seq<Point>)
    requires MaximalRuns(a, data) && MaximalRuns(b, data)
    ensures a == b
    decreases |a|
  {
    if a == [] || b == [] {
      EmptyData(a, data);
      EmptyData(b, data);
    } else {
      LastRunStart(a, data);
      LastRunStart(b, data);
      var r, s := a[|a| - 1], b[|b| - 1];
      FrontIsMaximal(a, data);
      FrontIsMaximal(b, data);
      MaximalRunsUnique(a[..|a| - 1], b[..|b| - 1], data[..|data| - |r|]);
      assert a == a[..|a| - 1] + [r] && b == b[..|b| - 1] + [s];
    }
  }

  lemma EmptyData(runs: seq<seq<Point>>, data: seq<Point>)
    requires MaximalRuns(runs, data)
    ensures runs == [] <==> data == []
  {
    if runs != [] {
      assert runs[|runs| - 1] != [];
    }
  }

  // ---------------------------------------------------------------- gap markers

  predicate HasMonth(points: seq<Point>, month: int) {
    exists i :: 0 <= i < |points| && points[i].month == month
  }

  /** The months of a stretch that have no data, in calendar order. */
  function GapMonths(points: seq<Point>, start: int, stop: int): (gaps: seq<int>)
    ensures forall m :: m in gaps <==> start <= m < stop && !HasMonth(points, m)
    ensures forall i, j :: 0 <= i < j < |gaps| ==> gaps[i] < gaps[j]
    decreases stop - start
  {
    if start >= stop then []
    else
      var front := GapMonths(points, start, stop - 1);
      assert forall i :: 0 <= i < |front| ==> front[i] in front;
      if HasMonth(points, stop - 1) then front else front + [stop - 1]
  }

  function Gaps(points: seq<Point>): seq<int>
    requires points != []
  {
    GapMonths(points, points[0].month, points[|points| - 1].month + 1)
  }

  function MonthsOf(points: seq<Point>): seq<int> {
    seq(|points|, i requires 0 <= i < |points| => points[i].month)
  }

  lemma MonthsOfMembers(points: seq<Point>, m: int)
    ensures m in MonthsOf(points) <==> HasMonth(points, m)
  {
    if HasMonth(points, m) {
      var i :| 0 <= i < |points| && points[i].month == m;
      assert MonthsOf(points)[i] == m;
    }
    if m in MonthsOf(points) {
      var i :| 0 <= i < |points| && MonthsOf(points)[i] == m;
      assert points[i].month == m;
    }
  }

  lemma MonthsWithinRange(points: seq<Point>, m: int)
    requires Chronological(points) && HasMonth(points, m)
    ensures points[0].month <= m <= points[|points| - 1].month
  {
    var i :| 0 <= i < |points| && points[i].month == m;
  }

  lemma MonthsAndGapsCover(points: seq<Point>)
    requires Chronological(points) && points != []
    ensures Elements(MonthsOf(points)) + Elements(Gaps(points))
         == Between(points[0].month, points[|points| - 1].month + 1)
    ensures Elements(MonthsOf(points)) !! Elements(Gaps(points))
  {
    var first, last := points[0].month, points[|points| - 1].month;
    forall m
      ensures m in Elements(MonthsOf(points)) + Elements(Gaps(points)) <==> first <= m <= last
      ensures !(m in Elements(MonthsOf(points)) && m in Elements(Gaps(points)))
    {
      MonthsOfMembers(points, m);
      if HasMonth(points, m) {
        MonthsWithinRange(points, m);
      }
    }
  }

  lemma CoverSizes(months: seq<int>, gaps: seq<int>, lo: int, hi: int)
    requires Distinct(months) && Distinct(gaps) && lo <= hi
    requires Elements(months) !! Elements(gaps)
    requires Elements(months) + Elements(gaps) == Between(lo, hi)
    ensures |months| + |gaps| == hi - lo
  {
    DistinctSize(months);
    DistinctSize(gaps);
    BetweenSize(lo, hi);
  }

  lemma GapCount(points: seq<Point>)
    requires Chronological(points) && points != []
    ensures |points| + |Gaps(points)| == points[|points| - 1].month - points[0].month + 1
  {
    MonthsAndGapsCover(points);
    CoverSizes(MonthsOf(points), Gaps(points), points[0].month, points[|points| - 1].month + 1);
  }

  /** Data months and gap markers partition the displayed range, each month exactly once. */
  lemma GapsPartitionRange(points: seq<Point>, month: int)
    requires Chronological(points) && points != []
    requires points[0].month <= month <= points[|points| - 1].month
    ensures (month in Gaps(points)) != HasMonth(points, month)
    ensures |points| + |Gaps(points)| == points[|points| - 1].month - points[0].month + 1
  {
    GapCount(points);
  }

  lemma {:induction false} ConsecutiveSpan(run: seq<Point>, i: nat)
    requires Consecutive(run) && i < |run|
    ensures run[i].month == run[0].month + i
  {
    if i > 0 {
      ConsecutiveSpan(run, i - 1);
    }
  }

  lemma SingleRun(points: seq<Point>, runs: seq<seq<Point>>)
    requires MaximalRuns(runs, points) && |runs| == 1
    ensures Consecutive(points)
  {
    assert runs == [] + [runs[0]];
    FlattenLast([], runs[0]);
    assert points == runs[0];
  }

  lemma ConsecutiveIsOneRun(points: seq<Point>)
    requires Consecutive(points) && points != []
    ensures MaximalRuns([points], points)
  {
    FlattenLast([], points);
    assert [] + [points] == [points];
  }

  lemma NoGapMeansConsecutive(points: seq<Point>)
    requires Chronological(points) && points != [] && Gaps(points) == []
    ensures Consecutive(points)
  {
    forall i, j | 0 <= i && j == i + 1 < |points|
      ensures points[j].month == points[i].month + 1
    {
      NoGapMeansNext(points, i);
    }
  }

  lemma ConsecutiveHasNoGap(points: seq<Point>)
    requires Chronological(points) && Consecutive(points) && points != []
    ensures Gaps(points) == []
  {
    GapCount(points);
    ConsecutiveSpan(points, |points| - 1);
  }

  /** One segment exactly when there is nothing to mark. */
  lemma OneRunIffNoGap(points: seq<Point>, runs: seq<seq<Point>>)
    requires Chronological(points) && points != [] && MaximalRuns(runs, points)
    ensures |runs| == 1 <==> Gaps(points) == []
  {
    if |runs| == 1 {
      SingleRun(points, runs);
      ConsecutiveHasNoGap(points);
    }
    if Gaps(points) == [] {
      NoGapMeansConsecutive(points);
      ConsecutiveIsOneRun(points);
      MaximalRunsUnique(runs, [points], points);
    }
  }

  lemma NoGapMeansNext(points: seq<Point>, i: nat)
    requires Chronological(points) && i + 1 < |points| && Gaps(points) == []
    ensures points[i + 1].month == points[i].month + 1
  {
    var m := points[i].month + 1;
    assert points[0].month <= points[i].month;
    assert m <= points[i + 1].month <= points[|points| - 1].month;
    assert m !in Gaps(points);
    assert HasMonth(points, m);
    var k :| 0 <= k < |points| && points[k].month == m;
    assert k == i + 1;
  }

  // ---------------------------------------------------------------- coordinates

  datatype Scale = Scale(first: int, last: int, low: int, high: int)

  /** The spans that occur: both below the bound under which coordinates are exact. */
  predicate ScaleFits(s: Scale) {
    && 0 < s.last - s.first < SPAN_LIMIT
    && 0 <= s.low <= s.high < SPAN_LIMIT
  }

  function XPosition(s: Scale, month: int): int
    requires s.first < s.last && s.first <= month
  {
    Coordinate(PLOT_LEFT, false, PLOT_WIDTH * (month - s.first), s.last - s.first)
  }

  function YPosition(s: Scale, value: int): int
    requires s.low <= value && s.low <= s.high
  {
    if s.low == s.high then 100 * (PLOT_BOTTOM - PLOT_HEIGHT / 2)
    else Coordinate(PLOT_BOTTOM, true, PLOT_HEIGHT * (value - s.low), s.high - s.low)
  }

  lemma HalfUpStep(a: nat, b: nat, r: nat)
    requires r > 0 && a + r <= b
    ensures HalfUp(a, r) + 1 <= HalfUp(b, r)
  {
    HalfUpShift(a, r);
    HalfUpMonotone(a + r, b, r);
  }

  /** The exact horizontal position over the span, in hundredths. */
  function ExactX(s: Scale, month: int): int {
    6400 * (s.last - s.first) + 64000 * (month - s.first)
  }

  function ExactY(s: Scale, value: int): int {
    24000 * (s.high - s.low) - 22400 * (value - s.low)
  }

  lemma XInRange(span: nat, n: nat, offset: nat)
    requires 0 < span < SPAN_LIMIT && n <= 640 * span && offset == 64
    ensures InRange(offset, false, n, span)
    ensures 100 * Numerator(offset, false, n, span) == 6400 * span + 100 * n
  {
  }

  lemma YInRange(span: nat, n: nat, offset: nat)
    requires 0 < span < SPAN_LIMIT && n <= 224 * span && offset == 240
    ensures InRange(offset, true, n, span)
    ensures 100 * Numerator(offset, true, n, span) == 24000 * span - 100 * n
  {
  }

  /** The printed x is the exact position rounded half up: the context's rounding never shows. */
  lemma XIsExact(s: Scale, month: int)
    requires ScaleFits(s) && s.first <= month <= s.last
    ensures XPosition(s, month) == HalfUp(ExactX(s, month), s.last - s.first)
  {
    var n, span := PLOT_WIDTH * (month - s.first), s.last - s.first;
    XInRange(span, n, PLOT_LEFT);
    CoordinateIsExact(PLOT_LEFT, false, n, span, ExactX(s, month));
  }

  /** So is the printed y. */
  lemma YIsExact(s: Scale, value: int)
    requires ScaleFits(s) && s.low <= value <= s.high && s.low < s.high
    ensures YPosition(s, value) == HalfUp(ExactY(s, value), s.high - s.low)
  {
    var n, span := PLOT_HEIGHT * (value - s.low), s.high - s.low;
    YInRange(span, n, PLOT_BOTTOM);
    CoordinateIsExact(PLOT_BOTTOM, true, n, span, ExactY(s, value));
  }

  lemma XEnds(s: Scale)
    requires ScaleFits(s)
    ensures XPosition(s, s.first) == 6400 && XPosition(s, s.last) == 70400
  {
    var span := s.last - s.first;
    XIsExact(s, s.first);
    XIsExact(s, s.last);
    assert ExactX(s, s.last) == 70400 * span;
    WholeQuotient(6400, span);
    WholeQuotient(70400, span);
  }

  lemma XMonotone(s: Scale, month: int, later: int)
    requires ScaleFits(s) && s.first <= month <= later <= s.last
    ensures XPosition(s, month) <= XPosition(s, later)
  {
    XIsExact(s, month);
    XIsExact(s, later);
    HalfUpMonotone(ExactX(s, month), ExactX(s, later), s.last - s.first);
  }

  /** x runs from 64 to 704 and never decreases with the month. */
  lemma XBounds(s: Scale, month: int, later: int)
    requires ScaleFits(s) && s.first <= month <= later <= s.last
    ensures XPosition(s, s.first) == 6400 && XPosition(s, s.last) == 70400
    ensures 6400 <= XPosition(s, month) <= XPosition(s, later) <= 70400
  {
    XEnds(s);
    XMonotone(s, s.first, month);
    XMonotone(s, month, later);
    XMonotone(s, later, s.last);
  }

  lemma XStep(s: Scale, month: int)
    requires ScaleFits(s) && s.first <= month < s.last && s.last - s.first <= 64000
    ensures XPosition(s, month) < XPosition(s, month + 1)
  {
    XIsExact(s, month);
    XIsExact(s, month + 1);
    HalfUpStep(ExactX(s, month), ExactX(s, month + 1), s.last - s.first);
  }

  lemma {:induction false} XGrowsWithSteps(s: Scale, month: int)
    requires ScaleFits(s) && s.first <= month <= s.last
    requires forall m :: s.first <= m < s.last ==> XPosition(s, m) < XPosition(s, m + 1)
    ensures XPosition(s, month) >= 6400 + (month - s.first)
    decreases month - s.first
  {
    if month == s.first {
      XEnds(s);
    } else {
      XGrowsWithSteps(s, month - 1);
      assert XPosition(s, month - 1) < XPosition(s, month - 1 + 1);
    }
  }

  /** Distinct months get distinct positions exactly up to a span of 64000 months. */
  lemma XStrictIff(s: Scale)
    requires ScaleFits(s)
    ensures s.last - s.first <= 64000
       <==> forall m :: s.first <= m < s.last ==> XPosition(s, m) < XPosition(s, m + 1)
  {
    if s.last - s.first <= 64000 {
      forall m | s.first <= m < s.last
        ensures XPosition(s, m) < XPosition(s, m + 1)
      {
        XStep(s, m);
      }
    }
    if forall m :: s.first <= m < s.last ==> XPosition(s, m) < XPosition(s, m + 1) {
      XGrowsWithSteps(s, s.last);
      XEnds(s);
    }
  }

  lemma YEnds(s: Scale)
    requires ScaleFits(s) && s.low < s.high
    ensures YPosition(s, s.low) == 24000 && YPosition(s, s.high) == 1600
  {
    var span := s.high - s.low;
    YIsExact(s, s.low);
    YIsExact(s, s.high);
    assert ExactY(s, s.high) == 1600 * span;
    WholeQuotient(24000, span);
    WholeQuotient(1600, span);
  }

  lemma YMonotone(s: Scale, value: int, higher: int)
    requires ScaleFits(s) && s.low <= value <= higher <= s.high && s.low < s.high
    ensures YPosition(s, higher) <= YPosition(s, value)
  {
    YIsExact(s, value);
    YIsExact(s, higher);
    HalfUpMonotone(ExactY(s, higher), ExactY(s, value), s.high - s.low);
  }

  /** Higher prices are drawn no lower, and everything stays inside the plot. */
  lemma YBounds(s: Scale, value: int, higher: int)
    requires ScaleFits(s) && s.low <= value <= higher <= s.high
    ensures 1600 <= YPosition(s, higher) <= YPosition(s, value) <= 24000
    ensures s.low < s.high ==> YPosition(s, s.low) == 24000 && YPosition(s, s.high) == 1600
  {
    if s.low < s.high {
      YEnds(s);
      YMonotone(s, s.low, value);
      YMonotone(s, value, higher);
      YMonotone(s, higher, s.high);
    }
  }

  // ---------------------------------------------------------------- the chart

  datatype Xy = Xy(x: int, y: int)

  datatype Chart = Chart(
    meanSegments: seq<seq<Xy>>,
    rangeSegments: seq<seq<Xy>>,
    points: seq<Xy>,
    gapMarkers: seq<int>)

  function MinLow(data: seq<Datum>): (m: int)
    requires data != []
    ensures forall i :: 0 <= i < |data| ==> m <= data[i].low
    ensures exists i :: 0 <= i < |data| && m == data[i].low
  {
    if |data| == 1 then data[0].low
    else
      var m := MinLow(data[1..]);
      assert forall i :: 1 <= i < |data| ==> data[i] == data[1..][i - 1];
      if m < data[0].low then m else data[0].low
  }

  function MaxHigh(data: seq<Datum>): (m: int)
    requires data != []
    ensures forall i :: 0 <= i < |data| ==> data[i].high <= m
    ensures exists i :: 0 <= i < |data| && m == data[i].high
  {
    if |data| == 1 then data[0].high
    else
      var m := MaxHigh(data[1..]);
      assert forall i :: 1 <= i < |data| ==> data[i] == data[1..][i - 1];
      if m > data[0].high then m else data[0].high
  }

  predicate ChartInput(data: seq<Datum>) {
    |data| >= 2 && ChronologicalData(data)
  }

  function ScaleOf(data: seq<Datum>): (s: Scale)
    requires ChartInput(data)
  {
    Scale(MonthNumber(data[0].yearMonth), MonthNumber(data[|data| - 1].yearMonth),
          MinLow(data), MaxHigh(data))
  }

  lemma MonthInRange(text: string)
    requires Formats(text)
    ensures 0 <= MonthNumber(text) < 120000
  {
    FormatsIsPatternFromYearOne(text);
    NumberThenValue(text);
  }

  /** On stored prices the chart's scale is small enough for exact coordinates. */
  lemma ScaleOfFits(data: seq<Datum>)
    requires ChartInput(data) && PricesFit(data)
    ensures ScaleFits(ScaleOf(data))
  {
    hide MinLow, MaxHigh, MonthNumber, Formats;
    var points := Points(data);
    assert points[0].month < points[|points| - 1].month;
    MonthInRange(data[0].yearMonth);
    MonthInRange(data[|data| - 1].yearMonth);
    assert MinLow(data) <= data[0].low <= data[0].high <= MaxHigh(data);
  }

  /** A point that the scale was computed from. */
  ghost predicate OnScale(s: Scale, p: Point) {
    && s.first < s.last
    && s.first <= p.month <= s.last
    && s.low <= p.datum.low <= p.datum.mean <= p.datum.high <= s.high
  }

  ghost predicate AllOnScale(s: Scale, run: seq<Point>) {
    forall i :: 0 <= i < |run| ==> OnScale(s, run[i])
  }

  function MeanLine(s: Scale, run: seq<Point>): seq<Xy>
    requires AllOnScale(s, run)
  {
    seq(|run|, i requires 0 <= i < |run| =>
      Xy(XPosition(s, run[i].month), YPosition(s, run[i].datum.mean)))
  }

  /** The upper edge forwards, then the lower edge backwards. */
  function RangeBand(s: Scale, run: seq<Point>): seq<Xy>
    requires AllOnScale(s, run)
  {
    seq(|run|, i requires 0 <= i < |run| =>
      Xy(XPosition(s, run[i].month), YPosition(s, run[i].datum.high)))
    + seq(|run|, i requires 0 <= i < |run| =>
        Xy(XPosition(s, run[|run| - 1 - i].month), YPosition(s, run[|run| - 1 - i].datum.low)))
  }

  lemma {:induction false} RunsOnScale(s: Scale, runs: seq<seq<Point>>)
    requires AllOnScale(s, Flatten(runs))
    ensures forall k :: 0 <= k < |runs| ==> AllOnScale(s, runs[k])
  {
    if runs != [] {
      var front, last := runs[..|runs| - 1], runs[|runs| - 1];
      var all := Flatten(runs);
      assert all == Flatten(front) + last;
      assert forall i :: 0 <= i < |Flatten(front)| ==> Flatten(front)[i] == all[i];
      assert forall i :: 0 <= i < |last| ==> last[i] == all[|Flatten(front)| + i];
      RunsOnScale(s, front);
      assert forall k :: 0 <= k < |front| ==> runs[k] == front[k];
    }
  }

  /** The runs long enough to draw. */
  function Drawable(runs: seq<seq<Point>>): (ds: seq<seq<Point>>)
    ensures forall k :: 0 <= k < |ds| ==> ds[k] in runs && |ds[k]| >= 2
  {
    if runs == [] then []
    else
      var front, last := runs[..|runs| - 1], runs[|runs| - 1];
      assert runs == front + [last];
      Drawable(front) + (if |last| >= 2 then [last] else [])
  }

  /** What the chart shows, in terms of its runs. */
  ghost predicate Shows(chart: Chart, data: seq<Datum>, runs: seq<seq<Point>>)
    requires ChartInput(data)
  {
    var s, points := ScaleOf(data), Points(data);
    var drawn := Drawable(runs);
    && AllOnScale(s, points)
    && (forall k :: 0 <= k < |drawn| ==> AllOnScale(s, drawn[k]))
    && |chart.meanSegments| == |chart.rangeSegments| == |drawn|
    && (forall k :: 0 <= k < |drawn| ==> chart.meanSegments[k] == MeanLine(s, drawn[k]))
    && (forall k :: 0 <= k < |drawn| ==> chart.rangeSegments[k] == RangeBand(s, drawn[k]))
    && chart.points == MeanLine(s, points)
    && |chart.gapMarkers| == |Gaps(points)|
    && (forall k :: 0 <= k < |Gaps(points)| ==>
          s.first <= Gaps(points)[k] <= s.last
          && chart.gapMarkers[k] == XPosition(s, Gaps(points)[k]))
  }

  lemma PointsOnScale(data: seq<Datum>)
    requires ChartInput(data)
    ensures AllOnScale(ScaleOf(data), Points(data))
  {
    forall i | 0 <= i < |data|
      ensures OnScale(ScaleOf(data), Points(data)[i])
    {
      PointOnScale(data, Points(data), MinLow(data), MaxHigh(data), i);
    }
  }

  lemma PointOnScale(data: seq<Datum>, points: seq<Point>, low: int, high: int, i: nat)
    requires ChartInput(data) && points == Points(data) && i < |data|
    requires low <= data[i].low && data[i].high <= high
    ensures OnScale(Scale(points[0].month, points[|points| - 1].month, low, high), points[i])
  {
    assert points[0].month < points[|points| - 1].month;
    assert points[0].month <= points[i].month <= points[|points| - 1].month;
  }

  /** The loop over runs; single months stay points. */
  method DrawRuns(s: Scale, runs: seq<seq<Point>>)
    returns (meanSegments: seq<seq<Xy>>, rangeSegments: seq<seq<Xy>>)
    requires forall k :: 0 <= k < |runs| ==> AllOnScale(s, runs[k])
    ensures forall k :: 0 <= k < |Drawable(runs)| ==> AllOnScale(s, Drawable(runs)[k])
    ensures |meanSegments| == |rangeSegments| == |Drawable(runs)|
    ensures forall k :: 0 <= k < |Drawable(runs)| ==>
              && meanSegments[k] == MeanLine(s, Drawable(runs)[k])
              && rangeSegments[k] == RangeBand(s, Drawable(runs)[k])
  {
    meanSegments, rangeSegments := [], [];
    ghost var drawn: seq<seq<Point>> := [];
    for i := 0 to |runs|
      invariant drawn == Drawable(runs[..i])
      invariant |meanSegments| == |rangeSegments| == |drawn|
      invariant forall k :: 0 <= k < |drawn| ==> AllOnScale(s, drawn[k])
      invariant forall k :: 0 <= k < |drawn| ==>
                  && meanSegments[k] == MeanLine(s, drawn[k])
                  && rangeSegments[k] == RangeBand(s, drawn[k])
    {
      assert runs[..i + 1][..i] == runs[..i];
      if |runs[i]| >= 2 {
        meanSegments := meanSegments + [MeanLine(s, runs[i])];
        rangeSegments := rangeSegments + [RangeBand(s, runs[i])];
        drawn := drawn + [runs[i]];
      }
    }
    assert runs[..|runs|] == runs;
  }

  /** All prices are checked before the first month is read. */
  method ValidateData(data: seq<Datum>) returns (problem: Option<string>)
    ensures problem.None? <==> forall i :: 0 <= i < |data| ==> DatumValid(data[i])
    ensures (exists i :: 0 <= i < |data| && !PricesValid(data[i])) ==>
              problem == Some("Monthly chart ranges are not ordered")
  {
    for i := 0 to |data|
      invariant forall k :: 0 <= k < i ==> PricesValid(data[k])
    {
      if !PricesValid(data[i]) {
        return Some("Monthly chart ranges are not ordered");
      }
    }
    for i := 0 to |data|
      invariant forall k :: 0 <= k < i ==> Formats(data[k].yearMonth)
    {
      if !Formats(data[i].yearMonth) {
        return Some("Historical month is out of range");
      }
    }
    problem := None;
  }

  /** Chart construction: it succeeds exactly on valid input and draws the maximal runs. */
  method BuildHistoryChart(data: seq<Datum>)
    returns (result: Result<Chart, string>, ghost runs: seq<seq<Point>>)
    ensures result.Ok? <==> ChartInput(data)
    ensures result.Ok? ==>
              MaximalRuns(runs, Points(data)) && Shows(result.value, data, runs)
  {
    runs := [];
    if |data| < 2 {
      return Err("A monthly chart requires at least two points"), [];
    }
    var problem := ValidateData(data);
    if problem.Some? {
      return Err(problem.value), [];
    }
    if !Chronological(Points(data)) {
      return Err("Monthly chart points must be unique and chronological"), [];
    }
    var chart, drawn := DrawChart(data);
    result, runs := Ok(chart), drawn;
  }

  method DrawChart(data: seq<Datum>) returns (chart: Chart, runs: seq<seq<Point>>)
    requires ChartInput(data)
    ensures MaximalRuns(runs, Points(data)) && Shows(chart, data, runs)
  {
    var points, s := Points(data), ScaleOf(data);
    PointsOnScale(data);
    runs := IndexRuns(points);
    RunsOnScale(s, runs);
    var meanSegments, rangeSegments := DrawRuns(s, runs);
    var gaps := Gaps(points);
    assert forall k :: 0 <= k < |gaps| ==> gaps[k] in gaps;
    var markers := seq(|gaps|, k requires 0 <= k < |gaps| => XPosition(s, gaps[k]));
    chart := Chart(meanSegments, rangeSegments, MeanLine(s, points), markers);
  }

  // ---------------------------------------------------------------- the drawn chart

  /** Two drawn points, the first not later than the second. */
  ghost predicate InPlot(s: Scale, p: Point, q: Point, a: Xy, b: Xy)
    requires OnScale(s, p)
  {
    && 6400 <= a.x <= b.x <= 70400
    && (p.month == s.first ==> a.x == 6400)
    && (q.month == s.last ==> b.x == 70400)
    && 1600 <= YPosition(s, p.datum.high) <= a.y
    && a.y <= YPosition(s, p.datum.low) <= 24000
  }

  lemma PointsInPlot(s: Scale, p: Point, q: Point)
    requires ScaleFits(s) && OnScale(s, p) && OnScale(s, q) && p.month <= q.month
    ensures InPlot(s, p, q, Xy(XPosition(s, p.month), YPosition(s, p.datum.mean)),
                   Xy(XPosition(s, q.month), YPosition(s, q.datum.mean)))
  {
    XBounds(s, p.month, q.month);
    YBounds(s, p.datum.mean, p.datum.high);
    YBounds(s, p.datum.low, p.datum.mean);
  }

  lemma DrawnInPlot(s: Scale, points: seq<Point>, drawn: seq<Xy>, i: nat, j: nat)
    requires ScaleFits(s) && AllOnScale(s, points) && Chronological(points)
    requires drawn == MeanLine(s, points) && i <= j < |points|
    ensures |drawn| == |points|
    ensures InPlot(s, points[i], points[j], drawn[i], drawn[j])
  {
    PointsInPlot(s, points[i], points[j]);
  }

  /**
   * On stored prices every point is inside the plot and later points are not further left; the
   * first is at the left edge and the last at the right one; and each mean is drawn between
   * its high and its low.
   */
  lemma ChartStaysInPlot(
    chart: Chart, data: seq<Datum>, runs: seq<seq<Point>>, i: nat, j: nat)
    requires ChartInput(data) && PricesFit(data) && Shows(chart, data, runs) && i <= j < |data|
    ensures |chart.points| == |data|
    ensures InPlot(ScaleOf(data), Points(data)[i], Points(data)[j],
                   chart.points[i], chart.points[j])
  {
    ScaleOfFits(data);
    DrawnInPlot(ScaleOf(data), Points(data), chart.points, i, j);
  }
}
