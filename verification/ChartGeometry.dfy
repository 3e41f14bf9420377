/**
 * What the monthly chart draws, said of the data alone: where every vertex stands on the exact
 * scale of the months and prices, which runs become lines and bands, and which months are gaps.
 */
module ChartGeometry {
  import opened DecimalArithmetic
  import opened DecimalCoordinates
  import opened Months
  import opened HistoryChart

  /** Valid prices in months that strictly increase. */
  ghost predicate MonthlyData(data: seq<Datum>) {
    && (forall i :: 0 <= i < |data| ==>
          && 0 < data[i].low <= data[i].mean <= data[i].high
          && Formats(data[i].yearMonth))
    && (forall i, j :: 0 <= i < j < |data| ==>
          MonthNumber(data[i].yearMonth) < MonthNumber(data[j].yearMonth))
  }

  /** The least low and the greatest high price. */
  ghost predicate PriceScale(data: seq<Datum>, low: int, high: int) {
    && (forall i :: 0 <= i < |data| ==> low <= data[i].low && data[i].high <= high)
    && (exists i :: 0 <= i < |data| && data[i].low == low)
    && (exists i :: 0 <= i < |data| && data[i].high == high)
  }

  function FirstMonth(data: seq<Datum>): int
    requires data != [] && Formats(data[0].yearMonth)
  {
    MonthNumber(data[0].yearMonth)
  }

  function LastMonth(data: seq<Datum>): int
    requires data != [] && Formats(data[|data| - 1].yearMonth)
  {
    MonthNumber(data[|data| - 1].yearMonth)
  }

  /** The plot's 640 units of width cover the months; hundredths, rounded half up. */
  ghost predicate StandsAt(x: int, month: int, first: int, last: int) {
    && first < last && first <= month
    && x == HalfUp(6400 * (last - first) + 64000 * (month - first), last - first)
  }

  /** Its 224 units of height cover the prices from the bottom up; a flat scale is centred. */
  ghost predicate ReachesTo(y: int, value: int, low: int, high: int) {
    if low == high then y == 12800
    else
      && low <= value <= high
      && y == HalfUp(24000 * (high - low) - 22400 * (value - low), high - low)
  }

  ghost predicate Vertex(xy: Xy, d: Datum, value: int, first: int, last: int, low: int, high: int) {
    && Formats(d.yearMonth)
    && StandsAt(xy.x, MonthNumber(d.yearMonth), first, last)
    && ReachesTo(xy.y, value, low, high)
  }

  ghost predicate MeanVertices(
    line: seq<Xy>, data: seq<Datum>, first: int, last: int, low: int, high: int)
  {
    && |line| == |data|
    && forall i :: 0 <= i < |data| ==>
         Vertex(line[i], data[i], data[i].mean, first, last, low, high)
  }

  /** The high prices forwards, then the low prices backwards. */
  ghost predicate BandVertices(
    band: seq<Xy>, data: seq<Datum>, first: int, last: int, low: int, high: int)
  {
    && |band| == 2 * |data|
    && (forall i :: 0 <= i < |data| ==>
          Vertex(band[i], data[i], data[i].high, first, last, low, high))
    && (forall i :: 0 <= i < |data| ==>
          Vertex(band[2 * |data| - 1 - i], data[i], data[i].low, first, last, low, high))
  }

  function DataOf(run: seq<Point>): seq<Datum> {
    seq(|run|, i requires 0 <= i < |run| => run[i].datum)
  }

  /** The runs of at least two points, in order, each once. */
  ghost predicate LongRuns(drawn: seq<seq<Point>>, runs: seq<seq<Point>>, places: seq<nat>) {
    && |places| == |drawn|
    && (forall j :: 0 <= j < |places| ==> places[j] < |runs| && drawn[j] == runs[places[j]])
    && (forall i, j :: 0 <= i < j < |places| ==> places[i] < places[j])
    && (forall k :: 0 <= k < |runs| ==>
          (|runs[k]| >= 2 <==> exists j :: 0 <= j < |places| && places[j] == k))
  }

  lemma DrawableLast(runs: seq<seq<Point>>)
    requires runs != []
    ensures var front, last := runs[..|runs| - 1], runs[|runs| - 1];
            Drawable(runs) == Drawable(front) + if |last| >= 2 then [last] else []
  {
  }

  lemma {:induction false} DrawableAreLongRuns(runs: seq<seq<Point>>) returns (places: seq<nat>)
    ensures LongRuns(Drawable(runs), runs, places)
  {
    hide LongRuns, Drawable;
    if runs == [] {
      places := [];
      NoLongRuns();
    } else {
      var front, last := runs[..|runs| - 1], runs[|runs| - 1];
      places := DrawableAreLongRuns(front);
      LongRunsAppend(Drawable(front), front, places, last);
      DrawableLast(runs);
      assert runs == front + [last];
      if |last| >= 2 {
        places := places + [|front|];
      } else {
        assert Drawable(front) + [] == Drawable(front);
      }
    }
  }

  lemma NoLongRuns()
    ensures LongRuns(Drawable([]), [], [])
  {
  }

  lemma LongRunsAppend(
    drawn: seq<seq<Point>>, runs: seq<seq<Point>>, places: seq<nat>, run: seq<Point>)
    requires LongRuns(drawn, runs, places)
    ensures if |run| >= 2 then LongRuns(drawn + [run], runs + [run], places + [|runs|])
            else LongRuns(drawn, runs + [run], places)
  {
    var all := runs + [run];
    var next := if |run| >= 2 then places + [|runs|] else places;
    assert all[|runs|] == run;
    forall k | 0 <= k < |all|
      ensures |all[k]| >= 2 <==> exists j :: 0 <= j < |next| && next[j] == k
    {
      if k < |runs| {
        if |runs[k]| >= 2 {
          var j :| 0 <= j < |places| && places[j] == k;
          assert next[j] == k;
        }
        if j :| 0 <= j < |next| && next[j] == k {
          assert places[j] == k;
        }
      } else if |run| >= 2 {
        assert next[|places|] == k;
      }
    }
  }

  /** The months between the first and the last that no datum has, in order. */
  ghost predicate MissingMonths(gaps: seq<int>, data: seq<Datum>)
    requires MonthlyData(data) && data != []
  {
    && (forall i, j :: 0 <= i < j < |gaps| ==> gaps[i] < gaps[j])
    && forall m :: m in gaps
         <==> && FirstMonth(data) <= m <= LastMonth(data)
              && forall i :: 0 <= i < |data| ==> MonthNumber(data[i].yearMonth) != m
  }

  /** The whole chart of some data, given its maximal runs. */
  ghost predicate Draws(
    chart: Chart, data: seq<Datum>, drawn: seq<seq<Point>>, gaps: seq<int>, low: int, high: int)
    requires MonthlyData(data) && data != []
  {
    var first, last := FirstMonth(data), LastMonth(data);
    && PriceScale(data, low, high)
    && MeanVertices(chart.points, data, first, last, low, high)
    && |chart.meanSegments| == |drawn| && |chart.rangeSegments| == |drawn|
    && (forall k :: 0 <= k < |drawn| ==>
          MeanVertices(chart.meanSegments[k], DataOf(drawn[k]), first, last, low, high))
    && (forall k :: 0 <= k < |drawn| ==>
          BandVertices(chart.rangeSegments[k], DataOf(drawn[k]), first, last, low, high))
    && MissingMonths(gaps, data)
    && |chart.gapMarkers| == |gaps|
    && forall k :: 0 <= k < |gaps| ==> StandsAt(chart.gapMarkers[k], gaps[k], first, last)
  }

  // ---------------------------------------------------------------- the chart draws it

  lemma InputIsMonthlyData(data: seq<Datum>)
    ensures ChronologicalData(data) <==> MonthlyData(data)
  {
    if forall i :: 0 <= i < |data| ==> DatumValid(data[i]) {
      var points := Points(data);
      assert forall i :: 0 <= i < |data| ==> points[i].month == MonthNumber(data[i].yearMonth);
    }
    if MonthlyData(data) {
      assert forall i :: 0 <= i < |data| ==> DatumValid(data[i]);
    }
  }

  /** A point of the data, on their scale. */
  ghost predicate PointOnScale(s: Scale, p: Point) {
    && Formats(p.datum.yearMonth) && p.month == MonthNumber(p.datum.yearMonth)
    && OnScale(s, p)
  }

  lemma PointVertex(s: Scale, p: Point, value: int)
    requires ScaleFits(s) && PointOnScale(s, p) && s.low <= value <= s.high
    ensures Vertex(Xy(XPosition(s, p.month), YPosition(s, value)), p.datum, value,
                   s.first, s.last, s.low, s.high)
  {
    XIsExact(s, p.month);
    if s.low < s.high {
      YIsExact(s, value);
    }
  }

  lemma LineVertices(s: Scale, run: seq<Point>)
    requires ScaleFits(s) && AllOnScale(s, run)
    requires forall i :: 0 <= i < |run| ==> PointOnScale(s, run[i])
    ensures MeanVertices(MeanLine(s, run), DataOf(run), s.first, s.last, s.low, s.high)
  {
    forall i | 0 <= i < |run|
      ensures Vertex(MeanLine(s, run)[i], run[i].datum, run[i].datum.mean,
                     s.first, s.last, s.low, s.high)
    {
      PointVertex(s, run[i], run[i].datum.mean);
    }
  }

  lemma BandAt(s: Scale, run: seq<Point>, i: nat)
    requires AllOnScale(s, run) && i < |run|
    ensures 2 * |run| - 1 - i < |RangeBand(s, run)| && i < |RangeBand(s, run)|
    ensures RangeBand(s, run)[i] == Xy(XPosition(s, run[i].month), YPosition(s, run[i].datum.high))
    ensures RangeBand(s, run)[2 * |run| - 1 - i]
         == Xy(XPosition(s, run[i].month), YPosition(s, run[i].datum.low))
  {
    hide XPosition, YPosition;
    var back := |run| - 1 - i;
    assert 2 * |run| - 1 - i == |run| + back;
    assert |run| - 1 - back == i;
  }

  lemma BandLength(s: Scale, run: seq<Point>)
    requires AllOnScale(s, run)
    ensures |RangeBand(s, run)| == 2 * |run|
  {
  }

  lemma EdgeVertices(s: Scale, run: seq<Point>)
    requires ScaleFits(s) && AllOnScale(s, run)
    requires forall i :: 0 <= i < |run| ==> PointOnScale(s, run[i])
    ensures BandVertices(RangeBand(s, run), DataOf(run), s.first, s.last, s.low, s.high)
  {
    hide RangeBand, Vertex, XPosition, YPosition;
    var band := RangeBand(s, run);
    BandLength(s, run);
    forall i | 0 <= i < |run|
      ensures Vertex(band[i], run[i].datum, run[i].datum.high,
                     s.first, s.last, s.low, s.high)
      ensures Vertex(band[2 * |run| - 1 - i], run[i].datum, run[i].datum.low,
                     s.first, s.last, s.low, s.high)
    {
      BandAt(s, run, i);
      PointVertex(s, run[i], run[i].datum.high);
      PointVertex(s, run[i], run[i].datum.low);
    }
  }

  lemma ScaleIsPriceScale(data: seq<Datum>)
    requires ChartInput(data) && MonthlyData(data)
    ensures PriceScale(data, ScaleOf(data).low, ScaleOf(data).high)
    ensures ScaleOf(data).first == FirstMonth(data) && ScaleOf(data).last == LastMonth(data)
  {
  }

  lemma {:induction false} RunsHoldPoints(s: Scale, runs: seq<seq<Point>>, k: nat)
    requires k < |runs|
    requires forall i :: 0 <= i < |Flatten(runs)| ==> PointOnScale(s, Flatten(runs)[i])
    ensures forall i :: 0 <= i < |runs[k]| ==> PointOnScale(s, runs[k][i])
  {
    var front, last := runs[..|runs| - 1], runs[|runs| - 1];
    var all := Flatten(runs);
    assert all == Flatten(front) + last;
    if k < |front| {
      assert forall i :: 0 <= i < |Flatten(front)| ==> Flatten(front)[i] == all[i];
      RunsHoldPoints(s, front, k);
    } else {
      assert forall i :: 0 <= i < |last| ==> last[i] == all[|Flatten(front)| + i];
    }
  }

  lemma DataPointsOnScale(data: seq<Datum>)
    requires ChartInput(data)
    ensures forall i :: 0 <= i < |data| ==> PointOnScale(ScaleOf(data), Points(data)[i])
  {
    PointsOnScale(data);
    forall i | 0 <= i < |data|
      ensures PointOnScale(ScaleOf(data), Points(data)[i])
    {
      assert OnScale(ScaleOf(data), Points(data)[i]);
    }
  }

  lemma GapsAreMissing(data: seq<Datum>)
    requires ChartInput(data) && MonthlyData(data)
    ensures MissingMonths(Gaps(Points(data)), data)
  {
    var points := Points(data);
    forall m
      ensures HasMonth(points, m)
         <==> exists i :: 0 <= i < |data| && MonthNumber(data[i].yearMonth) == m
    {
      if HasMonth(points, m) {
        var i :| 0 <= i < |points| && points[i].month == m;
        assert MonthNumber(data[i].yearMonth) == m;
      }
      if i :| 0 <= i < |data| && MonthNumber(data[i].yearMonth) == m {
        assert points[i].month == m;
      }
    }
  }

  lemma SegmentsDraw(chart: Chart, data: seq<Datum>, runs: seq<seq<Point>>, k: nat)
    requires ChartInput(data) && PricesFit(data) && Flatten(runs) == Points(data)
    requires Shows(chart, data, runs) && k < |Drawable(runs)|
    ensures var s := ScaleOf(data);
            && MeanVertices(chart.meanSegments[k], DataOf(Drawable(runs)[k]),
                            s.first, s.last, s.low, s.high)
            && BandVertices(chart.rangeSegments[k], DataOf(Drawable(runs)[k]),
                            s.first, s.last, s.low, s.high)
  {
    hide MeanVertices, BandVertices, MeanLine, RangeBand, ScaleOf;
    var s, run := ScaleOf(data), Drawable(runs)[k];
    ScaleOfFits(data);
    DataPointsOnScale(data);
    var j :| 0 <= j < |runs| && runs[j] == run;
    RunsHoldPoints(s, runs, j);
    LineVertices(s, run);
    EdgeVertices(s, run);
  }

  lemma MarkersDraw(chart: Chart, data: seq<Datum>, runs: seq<seq<Point>>, k: nat)
    requires ChartInput(data) && PricesFit(data) && Shows(chart, data, runs)
    requires k < |Gaps(Points(data))|
    ensures StandsAt(chart.gapMarkers[k], Gaps(Points(data))[k],
                     ScaleOf(data).first, ScaleOf(data).last)
  {
    ScaleOfFits(data);
    XIsExact(ScaleOf(data), Gaps(Points(data))[k]);
  }

  /**
   * On stored prices the chart of some data draws exactly those data: every point, every run
   * of two or more months as a line and a band, and a marker for every missing month.
   */
  lemma ChartDrawsData(chart: Chart, data: seq<Datum>, runs: seq<seq<Point>>)
    requires ChartInput(data) && PricesFit(data)
    requires MaximalRuns(runs, Points(data)) && Shows(chart, data, runs)
    ensures MonthlyData(data)
    ensures Draws(chart, data, Drawable(runs), Gaps(Points(data)),
                  ScaleOf(data).low, ScaleOf(data).high)
  {
    hide MeanVertices, BandVertices, StandsAt, PriceScale, MissingMonths, MeanLine, ScaleOf,
         FirstMonth, LastMonth;
    InputIsMonthlyData(data);
    ScaleOfFits(data);
    ScaleIsPriceScale(data);
    DataPointsOnScale(data);
    LineVertices(ScaleOf(data), Points(data));
    assert DataOf(Points(data)) == data;
    GapsAreMissing(data);
    forall k | 0 <= k < |Drawable(runs)|
      ensures MeanVertices(chart.meanSegments[k], DataOf(Drawable(runs)[k]),
                           ScaleOf(data).first, ScaleOf(data).last,
                           ScaleOf(data).low, ScaleOf(data).high)
      ensures BandVertices(chart.rangeSegments[k], DataOf(Drawable(runs)[k]),
                           ScaleOf(data).first, ScaleOf(data).last,
                           ScaleOf(data).low, ScaleOf(data).high)
    {
      SegmentsDraw(chart, data, runs, k);
    }
    forall k | 0 <= k < |Gaps(Points(data))|
      ensures StandsAt(chart.gapMarkers[k], Gaps(Points(data))[k],
                       ScaleOf(data).first, ScaleOf(data).last)
    {
      MarkersDraw(chart, data, runs, k);
    }
  }
}
