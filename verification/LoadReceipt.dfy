/**
 * The receipt validator: it sees only rounded numbers and must decide whether some run could
 * have produced them. It accepts every completed run's report, and what it accepts as passed
 * really passed.
 */
module LoadReceipt {
  import opened Common
  import opened LoadPacing
  import opened LoadReport

  const HALF_UNIT := 0.0005001
  const MAX_FLOAT := 1_000_000_000.0

  predicate SaneFloat(x: real) {
    0.0 <= x <= MAX_FLOAT
  }

  function Lower(x: real): real {
    Max(0.0, x - HALF_UNIT)
  }

  function Upper(x: real): real {
    x + HALF_UNIT
  }

  predicate IntegersSane(r: Report, d: Duration) {
    var n := Scheduled(d);
    && r.participated <= n && r.peak <= n && r.completed <= n && r.catalog <= n && r.detail <= n
    && r.successful <= n && 0 <= r.errors <= n && r.http5xx <= n && r.violations <= n
    && r.participated <= LOGICAL_VIRTUAL_USERS && r.peak <= MAX_CONCURRENCY
  }

  predicate FloatsSane(r: Report) {
    && SaneFloat(r.http5xxRate) && SaneFloat(r.p50) && SaneFloat(r.p95) && SaneFloat(r.max)
    && SaneFloat(r.elapsed) && SaneFloat(r.throughput) && SaneFloat(r.minimumThroughput)
    && SaneFloat(r.p95Jitter) && SaneFloat(r.maxJitter) && SaneFloat(r.minimumInterval)
  }

  /** The interval of elapsed times that both the elapsed time and the throughput allow. */
  datatype Feasible = Infeasible | Feasible(low: real, high: real)

  function FeasibleElapsed(r: Report): Feasible {
    if r.completed > 0 then
      if Upper(r.throughput) <= 0.0 then Infeasible
      else
        var c := r.completed as real;
        var low := Max(Lower(r.elapsed), c / Upper(r.throughput));
        var high :=
          if Lower(r.throughput) > 0.0 && c / Lower(r.throughput) <= Upper(r.elapsed) then
            c / Lower(r.throughput)
          else Upper(r.elapsed);
        if low > high then Infeasible else Feasible(low, high)
    else if !(Lower(r.throughput) <= 0.0 <= Upper(r.throughput)) then Infeasible
    else if Lower(r.elapsed) > Upper(r.elapsed) then Infeasible
    else Feasible(Lower(r.elapsed), Upper(r.elapsed))
  }

  /** A reported flag is plausible when some unrounded value gives it. */
  predicate Plausible(flag: bool, truePossible: bool, falsePossible: bool) {
    if flag then truePossible else falsePossible
  }

  predicate DurationPlausible(r: Report, d: Duration, f: Feasible)
    requires f.Feasible?
  {
    Plausible(r.durationMet,
              f.high >= d as real && f.low <= MaximumElapsed(d),
              f.low < d as real || f.high > MaximumElapsed(d))
  }

  predicate ThroughputPlausible(r: Report, d: Duration) {
    Plausible(r.throughputMet,
              Upper(r.throughput) >= RawMinimumThroughput(d),
              Lower(r.throughput) < RawMinimumThroughput(d))
  }

  predicate JitterPlausible(r: Report) {
    Plausible(r.jitterMet,
              Lower(r.p95Jitter) <= P95_SCHEDULE_JITTER_LIMIT_MS,
              Upper(r.p95Jitter) > P95_SCHEDULE_JITTER_LIMIT_MS)
  }

  predicate BurstPlausible(r: Report) {
    Plausible(r.noBurstMet,
              r.violations == 0 && Upper(r.minimumInterval) + CLOCK_EPSILON >= RECOVERY_FLOOR,
              r.violations != 0 || Lower(r.minimumInterval) + CLOCK_EPSILON < RECOVERY_FLOOR)
  }

  /** Everything the gate demands except the latency, with the rate as it was rounded. */
  predicate BasePass(r: Report, d: Duration, expectedRate: real) {
    && r.completed == Scheduled(d)
    && WorkloadMatches(r.catalog, r.detail, d)
    && r.errors == 0
    && r.revisionConsistent
    && expectedRate < HTTP_5XX_RATE_LIMIT
    && r.durationMet && r.throughputMet && r.scheduleMet && r.usersMet
    && 1 <= r.peak <= MAX_CONCURRENCY
  }

  predicate PassPlausible(r: Report, d: Duration, expectedRate: real) {
    Plausible(r.passed,
              BasePass(r, d, expectedRate) && Lower(r.p95) <= P95_LIMIT_MS,
              !BasePass(r, d, expectedRate) || Upper(r.p95) > P95_LIMIT_MS)
  }

  predicate CountsAddUp(r: Report) {
    r.catalog + r.detail == r.completed && r.successful + r.errors + r.http5xx == r.completed
  }

  predicate Validates(r: Report, d: Duration, round: Rounding) {
    var expectedRate := round.six(RateOf(r.http5xx, r.completed));
    var f := FeasibleElapsed(r);
    && IntegersSane(r, d) && FloatsSane(r)
    && f.Feasible?
    && Lower(r.minimumThroughput) <= RawMinimumThroughput(d) <= Upper(r.minimumThroughput)
    && CountsAddUp(r)
    && r.http5xxRate == expectedRate
    && r.p50 <= r.p95 <= r.max
    && r.p95Jitter <= r.maxJitter
    && DurationPlausible(r, d, f)
    && ThroughputPlausible(r, d)
    && JitterPlausible(r)
    && BurstPlausible(r)
    && r.scheduleMet == (r.jitterMet && r.noBurstMet)
    && r.concurrencyMet == (1 <= r.peak <= MAX_CONCURRENCY)
    && r.workloadConsistent == WorkloadMatches(r.catalog, r.detail, d)
    && (r.usersMet ==>
          r.participated == if Scheduled(d) < LOGICAL_VIRTUAL_USERS then Scheduled(d)
                            else LOGICAL_VIRTUAL_USERS)
    && PassPlausible(r, d, expectedRate)
  }

  // ---------------------------------------------------------------- rounding

  /** Monotone, within half a unit, and exact on the grid points that the proofs use. */
  ghost predicate RoundsTo(round: real -> real, half: real) {
    && (forall x, y :: x <= y ==> round(x) <= round(y))
    && (forall x :: -half <= round(x) - x <= half)
    && round(0.0) == 0.0
  }

  ghost predicate ProperRounding(r: Rounding) {
    && RoundsTo(r.three, 0.0005) && RoundsTo(r.six, 0.0000005)
    && r.six(HTTP_5XX_RATE_LIMIT) == HTTP_5XX_RATE_LIMIT
  }

  lemma WithinBounds(round: real -> real, x: real)
    requires RoundsTo(round, 0.0005) && x >= 0.0
    ensures round(x) >= 0.0
    ensures Lower(round(x)) <= x < Upper(round(x))
  {
  }

  // ---------------------------------------------------------------- real quotients

  lemma QuotientAtMost(c: real, t: real, e: real)
    requires t > 0.0 && c <= e * t
    ensures c / t <= e
  {
  }

  lemma QuotientAtLeast(c: real, t: real, e: real)
    requires t > 0.0 && c >= e * t
    ensures c / t >= e
  {
  }

  lemma ProductOrder(e: real, s: real, t: real)
    requires e >= 0.0 && s <= t
    ensures e * s <= e * t
  {
  }

  lemma QuotientTimes(c: real, e: real)
    requires e > 0.0
    ensures e * (c / e) == c
  {
  }

  lemma ScheduledBounds(d: Duration)
    ensures 10 <= Scheduled(d) <= 9000 && Scheduled(d) == 10 * d
    ensures (Scheduled(d) * 7) / 10 == 7 * d && (Scheduled(d) * 3) / 10 == 3 * d
  {
  }

  // ---------------------------------------------------------------- completed runs

  ghost predicate AnswersInPlanOrder(d: Duration, requests: seq<CompletedRequest>) {
    && |requests| == Scheduled(d)
    && forall i :: 0 <= i < |requests| ==>
         && requests[i].kind == RequestKind(i)
         && requests[i].user == i % LOGICAL_VIRTUAL_USERS
         && requests[i].observation.latency >= 0.0
  }

  /** What the runner hands to the report when every submitted request came back. */
  ghost predicate CompletedRun(d: Duration, requests: seq<CompletedRequest>, m: Measurements) {
    && AnswersInPlanOrder(d, requests)
    && m.elapsedSeconds >= d as real
    && 0.0 <= m.p95Jitter <= m.maxJitter
    && 0.0 <= m.minimumInterval
    && m.violations <= Scheduled(d)
    && m.peak <= MAX_CONCURRENCY && m.peak <= Scheduled(d)
  }

  /**
   * Every finished paced run, whose requests begin at most once each, is a completed run, and
   * its report shows no burst.
   */
  lemma PacedRunCompletes(
    d: Duration, requests: seq<CompletedRequest>, start: real, log: seq<Submission>,
    elapsed: real, jitters: seq<real>, events: seq<Activity>, round: Rounding)
    requires AnswersInPlanOrder(d, requests)
    requires Paced(start, log) && |log| == Scheduled(d) && elapsed >= 1000.0 * (d as real)
    requires NonNegative(jitters)
    requires OneAtATime(events) && Begun(events) <= |log|
    ensures var m := Measure(elapsed, jitters, Intervals(log), Peak(events));
            && CompletedRun(d, requests, m) && (Begun(events) >= 1 ==> m.peak >= 1)
            && BuildReport(d, requests, m, round).noBurstMet
  {
    PeakIsBounded(events);
    ScheduledBounds(d);
    PacedHasNoBurst(start, log);
    PercentilesOrdered(jitters, 95, 95);
    var intervals := Intervals(log);
    assert intervals != [] && MinOf(intervals) in intervals;
  }

  lemma CountOneMore(requests: seq<CompletedRequest>, n: nat)
    requires n < |requests|
    ensures CountWhere(requests[..n + 1], IsCatalog)
         == CountWhere(requests[..n], IsCatalog) + (if IsCatalog(requests[n]) then 1 else 0)
    ensures CountWhere(requests[..n + 1], IsDetail)
         == CountWhere(requests[..n], IsDetail) + (if IsDetail(requests[n]) then 1 else 0)
  {
    assert requests[..n + 1][..n] == requests[..n];
  }

  /** Catalog requests among the first n: the whole tens and the started ten. */
  function CatalogAmong(n: nat): nat {
    7 * (n / 10) + (if n % 10 <= 7 then n % 10 else 7)
  }

  lemma CatalogAmongNext(n: nat)
    ensures CatalogAmong(n) <= n
    ensures CatalogAmong(n + 1) == CatalogAmong(n) + (if n % 10 >= 7 then 0 else 1)
  {
    var tens, rest := n / 10, n % 10;
    assert n == 10 * tens + rest;
    if rest == 9 {
      assert n + 1 == 10 * (tens + 1);
    }
  }

  lemma KindCountsNext(requests: seq<CompletedRequest>, n: nat)
    requires n < |requests| && requests[n].kind == RequestKind(n)
    requires CountWhere(requests[..n], IsCatalog) == CatalogAmong(n)
    requires CountWhere(requests[..n], IsDetail) == n - CatalogAmong(n)
    ensures CountWhere(requests[..n + 1], IsCatalog) == CatalogAmong(n + 1)
    ensures CountWhere(requests[..n + 1], IsDetail) == n + 1 - CatalogAmong(n + 1)
  {
    hide CatalogAmong, CountWhere, RequestKind;
    CountOneMore(requests, n);
    SlotKinds(n);
    CatalogAmongNext(n);
  }

  lemma {:induction false} KindCountsTo(requests: seq<CompletedRequest>, n: nat)
    requires n <= |requests|
    requires forall i :: 0 <= i < |requests| ==> requests[i].kind == RequestKind(i)
    ensures CountWhere(requests[..n], IsCatalog) == CatalogAmong(n)
    ensures CountWhere(requests[..n], IsDetail) == n - CatalogAmong(n)
  {
    if n > 0 {
      KindCountsTo(requests, n - 1);
      KindCountsNext(requests, n - 1);
    }
  }

  lemma KindCounts(requests: seq<CompletedRequest>, tens: nat)
    requires |requests| == 10 * tens
    requires forall i :: 0 <= i < |requests| ==> requests[i].kind == RequestKind(i)
    ensures CountWhere(requests, IsCatalog) == 7 * tens
    ensures CountWhere(requests, IsDetail) == 3 * tens
  {
    KindCountsTo(requests, |requests|);
    assert (10 * tens) / 10 == tens && (10 * tens) % 10 == 0;
    assert requests[..|requests|] == requests;
  }

  lemma {:induction false} StatusesDisjoint(requests: seq<CompletedRequest>)
    ensures CountWhere(requests, IsSuccessful)
            + CountWhere(requests, IsServerError)
         <= |requests|
  {
    if requests != [] {
      StatusesDisjoint(requests[..|requests| - 1]);
    }
  }

  lemma ParticipantIff(requests: seq<CompletedRequest>, u: int)
    requires forall i :: 0 <= i < |requests| ==> requests[i].user == i % LOGICAL_VIRTUAL_USERS
    ensures u in Participants(requests)
       <==> 0 <= u < LOGICAL_VIRTUAL_USERS && u < |requests|
  {
    if 0 <= u < LOGICAL_VIRTUAL_USERS && u < |requests| {
      assert requests[u] in requests && requests[u].user == u;
    }
    if u in Participants(requests) {
      var r :| r in requests && 0 <= r.user < LOGICAL_VIRTUAL_USERS && r.user == u;
      var i :| 0 <= i < |requests| && requests[i] == r;
      assert u == i % LOGICAL_VIRTUAL_USERS <= i;
    }
  }

  lemma RoundRobinParticipants(requests: seq<CompletedRequest>, n: nat)
    requires |requests| == n
    requires forall i :: 0 <= i < n ==> requests[i].user == i % LOGICAL_VIRTUAL_USERS
    ensures |Participants(requests)|
         == if n < LOGICAL_VIRTUAL_USERS then n else LOGICAL_VIRTUAL_USERS
  {
    var count := if n < LOGICAL_VIRTUAL_USERS then n else LOGICAL_VIRTUAL_USERS;
    BetweenSize(0, count);
    var participants, all := Participants(requests), Between(0, count);
    forall u
      ensures u in participants <==> u in all
    {
      ParticipantIff(requests, u);
    }
    assert participants == all;
  }

  lemma UsersAsExpected(requests: seq<CompletedRequest>, n: nat)
    requires |requests| == n
    requires forall i :: 0 <= i < n ==> requests[i].user == i % LOGICAL_VIRTUAL_USERS
    ensures Users(requests) == ExpectedUsers(n)
  {
  }

  // ---------------------------------------------------------------- the feasible interval

  /** The true elapsed time lies in the interval that the validator reconstructs. */
  lemma ElapsedIsFeasible(r: Report, round: Rounding, elapsed: real, throughput: real)
    requires ProperRounding(round) && elapsed >= 1.0 && r.completed > 0
    requires throughput == (r.completed as real) / elapsed
    requires r.elapsed == round.three(elapsed) && r.throughput == round.three(throughput)
    ensures FeasibleElapsed(r).Feasible?
    ensures FeasibleElapsed(r).low <= elapsed <= FeasibleElapsed(r).high
  {
    var c := r.completed as real;
    QuotientTimes(c, elapsed);
    PositiveQuotient(c, elapsed);
    WithinBounds(round.three, elapsed);
    WithinBounds(round.three, throughput);
    ProductOrder(elapsed, throughput, Upper(r.throughput));
    QuotientAtMost(c, Upper(r.throughput), elapsed);
    if Lower(r.throughput) > 0.0 {
      ProductOrder(elapsed, Lower(r.throughput), throughput);
      QuotientAtLeast(c, Lower(r.throughput), elapsed);
    }
  }

  lemma PositiveQuotient(c: real, e: real)
    requires c > 0.0 && e > 0.0
    ensures c / e > 0.0
  {
  }

  // ---------------------------------------------------------------- the rate gate

  /** On at most 9000 requests a rate below the limit stays below it when rounded. */
  lemma RateGateSurvivesRounding(round: Rounding, http5xx: nat, completed: nat)
    requires ProperRounding(round) && 0 < completed <= 9000
    ensures round.six(RateOf(http5xx, completed)) < HTTP_5XX_RATE_LIMIT
       <==> RateOf(http5xx, completed) < HTTP_5XX_RATE_LIMIT
    ensures RateOf(http5xx, completed) < HTTP_5XX_RATE_LIMIT <==> 200 * http5xx < completed
  {
    var c, h := completed as real, http5xx as real;
    RateBelowIff(h, c, 0.005);
    if 200 * http5xx < completed {
      assert 200.0 * h <= c - 1.0;
      RateMargin(h, c);
    }
  }

  lemma RateBelowIff(h: real, c: real, limit: real)
    requires c > 0.0
    ensures h / c < limit <==> h < limit * c
  {
    if h / c < limit {
      assert (h / c) * c < limit * c;
    } else {
      assert (h / c) * c >= limit * c;
    }
    QuotientTimes(h, c);
  }

  lemma RateMargin(h: real, c: real)
    requires 0.0 < c <= 9000.0 && 200.0 * h <= c - 1.0
    ensures h / c + 0.0000005 < 0.005
  {
    QuotientAtMost(h, c, 0.0049995 - 0.00000005);
    assert (0.0049995 - 0.00000005) * c >= 0.005 * c - 0.00000055 * 9000.0;
  }

  ghost predicate SixDigits(round: real -> real) {
    forall x :: (round(x) * 1_000_000.0).Floor as real == round(x) * 1_000_000.0
  }

  /** On a run of 10,001 seconds a rate below the limit would round up to it. */
  lemma RateGateFailsOnLongRuns(round: Rounding)
    requires ProperRounding(round) && SixDigits(round.six)
    ensures RateOf(500, 100_010) < HTTP_5XX_RATE_LIMIT
    ensures round.six(RateOf(500, 100_010)) >= HTTP_5XX_RATE_LIMIT
  {
    var x := RateOf(500, 100_010);
    assert 0.0049995 < x < 0.005;
    var k := (round.six(x) * 1_000_000.0).Floor;
    assert k as real > 4999.0;
  }

  // ---------------------------------------------------------------- completeness

  /** The reported numbers that the validator's only size limit concerns. */
  ghost predicate WithinFloatLimit(r: Report) {
    && r.max <= MAX_FLOAT && r.elapsed <= MAX_FLOAT
    && r.maxJitter <= MAX_FLOAT && r.minimumInterval <= MAX_FLOAT
  }

  lemma ReportCounts(
    d: Duration, requests: seq<CompletedRequest>, m: Measurements, round: Rounding)
    requires CompletedRun(d, requests, m)
    ensures var r := BuildReport(d, requests, m, round);
            && r.completed == Scheduled(d) && r.catalog == 7 * d && r.detail == 3 * d
            && r.workloadConsistent && r.usersMet
            && r.successful + r.http5xx <= r.completed
            && r.errors == r.completed - r.successful - r.http5xx
            && r.participated == (if Scheduled(d) < LOGICAL_VIRTUAL_USERS then Scheduled(d)
                                  else LOGICAL_VIRTUAL_USERS)
  {
    ScheduledBounds(d);
    KindCounts(requests, d);
    StatusesDisjoint(requests);
    RoundRobinParticipants(requests, Scheduled(d));
    UsersAsExpected(requests, Scheduled(d));
  }

  lemma ReportLatencies(
    d: Duration, requests: seq<CompletedRequest>, m: Measurements, round: Rounding)
    requires CompletedRun(d, requests, m) && ProperRounding(round)
    ensures var r := BuildReport(d, requests, m, round);
            && 0.0 <= r.p50 <= r.p95 <= r.max
            && 0.0 <= r.p95Jitter <= r.maxJitter && 0.0 <= r.minimumInterval
            && (Percentile(Latencies(requests), 95) <= P95_LIMIT_MS ==>
                  Lower(r.p95) <= P95_LIMIT_MS)
            && (Percentile(Latencies(requests), 95) > P95_LIMIT_MS ==>
                  Upper(r.p95) > P95_LIMIT_MS)
  {
    var latencies := Latencies(requests);
    assert NonNegative(latencies);
    PercentilesOrdered(latencies, 50, 95);
    WithinBounds(round.three, Percentile(latencies, 95));
  }

  /** The flags of a report are plausible to a reader of its rounded numbers. */
  lemma FlagsPlausible(
    d: Duration, requests: seq<CompletedRequest>, m: Measurements, round: Rounding)
    requires CompletedRun(d, requests, m) && ProperRounding(round)
    ensures var r := BuildReport(d, requests, m, round);
            && FeasibleElapsed(r).Feasible?
            && DurationPlausible(r, d, FeasibleElapsed(r))
            && ThroughputPlausible(r, d) && JitterPlausible(r) && BurstPlausible(r)
  {
    var r := BuildReport(d, requests, m, round);
    var throughput := (|requests| as real) / Max(m.elapsedSeconds, 0.001);
    ScheduledBounds(d);
    PositiveQuotient(|requests| as real, m.elapsedSeconds);
    ElapsedIsFeasible(r, round, m.elapsedSeconds, throughput);
    WithinBounds(round.three, throughput);
    WithinBounds(round.three, m.p95Jitter);
    WithinBounds(round.three, m.minimumInterval);
  }

  lemma PassIsPlausible(
    d: Duration, requests: seq<CompletedRequest>, m: Measurements, round: Rounding)
    requires CompletedRun(d, requests, m) && ProperRounding(round)
    ensures var r := BuildReport(d, requests, m, round);
            PassPlausible(r, d, round.six(RateOf(r.http5xx, r.completed)))
  {
    var r := BuildReport(d, requests, m, round);
    ScheduledBounds(d);
    ReportLatencies(d, requests, m, round);
    RateGateSurvivesRounding(round, r.http5xx, r.completed);
  }

  lemma SaneQuotient(round: Rounding, c: real, e: real)
    requires ProperRounding(round) && 0.0 < c <= 9000.0 && e >= 1.0
    ensures SaneFloat(round.three(c / e))
    ensures Lower(round.three(c / e)) <= c / e <= Upper(round.three(c / e))
  {
    PositiveQuotient(c, e);
    QuotientAtMost(c, e, 9000.0);
    WithinBounds(round.three, c / e);
  }

  lemma SaneThroughputs(
    d: Duration, requests: seq<CompletedRequest>, m: Measurements, round: Rounding)
    requires CompletedRun(d, requests, m) && ProperRounding(round)
    ensures var r := BuildReport(d, requests, m, round);
            && SaneFloat(r.throughput) && SaneFloat(r.minimumThroughput)
            && r.elapsed >= 0.0
            && Lower(r.minimumThroughput) <= RawMinimumThroughput(d) <= Upper(r.minimumThroughput)
  {
    ScheduledBounds(d);
    SaneQuotient(round, Scheduled(d) as real, m.elapsedSeconds);
    SaneQuotient(round, Scheduled(d) as real, MaximumElapsed(d));
    WithinBounds(round.three, m.elapsedSeconds);
  }

  lemma SaneRate(d: Duration, requests: seq<CompletedRequest>, m: Measurements, round: Rounding)
    requires CompletedRun(d, requests, m) && ProperRounding(round)
    ensures SaneFloat(BuildReport(d, requests, m, round).http5xxRate)
  {
    ScheduledBounds(d);
    StatusesDisjoint(requests);
    RateIsFraction(round, CountWhere(requests, IsServerError), |requests|);
  }

  lemma RateIsFraction(round: Rounding, http5xx: nat, completed: nat)
    requires ProperRounding(round) && 0 < completed && http5xx <= completed
    ensures 0.0 <= round.six(RateOf(http5xx, completed)) <= 2.0
  {
    QuotientAtMost(http5xx as real, completed as real, 1.0);
    QuotientAtLeast(http5xx as real, completed as real, 0.0);
  }

  /** The copied numbers and the flags that the validator recomputes exactly. */
  lemma ReportFlags(
    d: Duration, requests: seq<CompletedRequest>, m: Measurements, round: Rounding)
    requires CompletedRun(d, requests, m)
    ensures var r := BuildReport(d, requests, m, round);
            && r.peak <= Scheduled(d) && r.peak <= MAX_CONCURRENCY && r.violations <= Scheduled(d)
            && r.http5xxRate == round.six(RateOf(r.http5xx, r.completed))
            && r.scheduleMet == (r.jitterMet && r.noBurstMet)
            && r.concurrencyMet == (1 <= r.peak <= MAX_CONCURRENCY)
            && r.workloadConsistent == WorkloadMatches(r.catalog, r.detail, d)
  {
  }

  /**
   * The validator accepts the report of every completed run whose largest numbers fit its
   * float limit, and of no other completed run: the rounding never turns an honest report away.
   */
  lemma HonestReportsValidate(
    d: Duration, requests: seq<CompletedRequest>, m: Measurements, round: Rounding)
    requires CompletedRun(d, requests, m) && ProperRounding(round)
    ensures Validates(BuildReport(d, requests, m, round), d, round)
       <==> WithinFloatLimit(BuildReport(d, requests, m, round))
  {
    hide BuildReport, CompletedRun, RateOf, RawMinimumThroughput, Participants,
         FeasibleElapsed, DurationPlausible, ThroughputPlausible, JitterPlausible,
         BurstPlausible, PassPlausible, Lower, Upper;
    ScheduledBounds(d);
    ReportFlags(d, requests, m, round);
    ReportCounts(d, requests, m, round);
    ReportLatencies(d, requests, m, round);
    FlagsPlausible(d, requests, m, round);
    PassIsPlausible(d, requests, m, round);
    SaneThroughputs(d, requests, m, round);
    SaneRate(d, requests, m, round);
  }

  // ---------------------------------------------------------------- what passing means

  lemma {:induction false} NoErrorsIff(requests: seq<CompletedRequest>)
    ensures CountWhere(requests, IsSuccessful) + CountWhere(requests, IsServerError)
            == |requests|
       <==> forall i :: 0 <= i < |requests| ==>
              IsSuccessful(requests[i]) || IsServerError(requests[i])
  {
    StatusesDisjoint(requests);
    if requests != [] {
      NoErrorsIff(requests[..|requests| - 1]);
      StatusesDisjoint(requests[..|requests| - 1]);
    }
  }

  lemma ThroughputGateIsElapsed(n: real, elapsed: real, limit: real)
    requires n > 0.0 && elapsed > 0.0 && limit > 0.0
    ensures n / elapsed >= n / limit <==> elapsed <= limit
  {
    QuotientTimes(n, elapsed);
    QuotientTimes(n, limit);
    PositiveQuotient(n, elapsed);
    PositiveQuotient(n, limit);
    if elapsed <= limit {
      ProductGrows(n / limit, elapsed, limit);
      QuotientAtLeast(n, elapsed, n / limit);
    } else {
      ProductGrows(n / elapsed, limit, elapsed);
      StrictQuotient(n, elapsed, limit);
    }
  }

  lemma ProductGrows(q: real, a: real, b: real)
    requires q > 0.0 && a <= b
    ensures q * a <= q * b
  {
  }

  lemma StrictQuotient(n: real, elapsed: real, limit: real)
    requires n > 0.0 && elapsed > limit > 0.0
    ensures n / elapsed < n / limit
  {
  }

  /** The gate in terms of what was measured; the throughput clause adds nothing to it. */
  ghost predicate RunIsGood(d: Duration, requests: seq<CompletedRequest>, m: Measurements) {
    && (forall i :: 0 <= i < |requests| ==>
          IsSuccessful(requests[i]) || IsServerError(requests[i]))
    && RevisionConsistent(requests)
    && 200 * CountWhere(requests, IsServerError) < |requests|
    && Percentile(Latencies(requests), 95) <= P95_LIMIT_MS
    && m.elapsedSeconds <= MaximumElapsed(d)
    && m.p95Jitter <= P95_SCHEDULE_JITTER_LIMIT_MS
    && m.violations == 0 && m.minimumInterval + CLOCK_EPSILON >= RECOVERY_FLOOR
    && m.peak >= 1
  }

  /** A completed run passes exactly when its measurements are good. */
  lemma CompletedRunPassesIff(
    d: Duration, requests: seq<CompletedRequest>, m: Measurements, round: Rounding)
    requires CompletedRun(d, requests, m)
    ensures BuildReport(d, requests, m, round).passed <==> RunIsGood(d, requests, m)
  {
    ScheduledBounds(d);
    ReportCounts(d, requests, m, round);
    NoErrorsIff(requests);
    var n, h := |requests|, CountWhere(requests, IsServerError);
    RateBelowIff(h as real, n as real, HTTP_5XX_RATE_LIMIT);
    ThroughputGateIsElapsed(n as real, m.elapsedSeconds, MaximumElapsed(d));
  }

  // ---------------------------------------------------------------- soundness

  /** What the unrounded measurements of a passed receipt can be at most and at least. */
  ghost predicate LimitsUpToRounding(r: Report, d: Duration) {
    && r.p95 <= P95_LIMIT_MS + HALF_UNIT
    && (d as real) - HALF_UNIT <= r.elapsed <= MaximumElapsed(d) + HALF_UNIT
    && r.throughput >= RawMinimumThroughput(d) - HALF_UNIT
    && r.p95Jitter <= P95_SCHEDULE_JITTER_LIMIT_MS + HALF_UNIT
    && r.minimumInterval >= RECOVERY_FLOOR - CLOCK_EPSILON - HALF_UNIT
  }

  ghost predicate WithinLimits(elapsed: real, d: Duration) {
    (d as real) <= elapsed <= MaximumElapsed(d)
  }

  /** An unrounded elapsed time that gives both reported numbers, up to rounding. */
  ghost predicate Explains(elapsed: real, r: Report) {
    && elapsed > 0.0
    && Lower(r.elapsed) <= elapsed <= Upper(r.elapsed)
    && Lower(r.throughput) <= (r.completed as real) / elapsed <= Upper(r.throughput)
  }

  lemma ThroughputBelow(c: real, elapsed: real, upper: real)
    requires c > 0.0 && elapsed > 0.0 && upper > 0.0 && c / upper <= elapsed
    ensures c / elapsed <= upper
  {
    QuotientTimes(c, upper);
    ProductGrows(upper, c / upper, elapsed);
    QuotientAtMost(c, elapsed, upper);
  }

  lemma ThroughputAbove(c: real, elapsed: real, lower: real)
    requires c > 0.0 && elapsed > 0.0 && lower > 0.0 && elapsed <= c / lower
    ensures lower <= c / elapsed
  {
    QuotientTimes(c, lower);
    ProductGrows(lower, elapsed, c / lower);
    QuotientAtLeast(c, elapsed, lower);
  }

  lemma ThroughputOfFeasible(r: Report, elapsed: real)
    requires FeasibleElapsed(r).Feasible? && r.completed > 0 && elapsed > 0.0
    requires FeasibleElapsed(r).low <= elapsed <= FeasibleElapsed(r).high
    ensures Explains(elapsed, r)
  {
    hide Lower, Upper;
    var c := r.completed as real;
    PositiveQuotient(c, elapsed);
    ThroughputBelow(c, elapsed, Upper(r.throughput));
    if Lower(r.throughput) > 0.0 {
      ThroughputAbove(c, elapsed, Lower(r.throughput));
    }
  }

  /**
   * A receipt that validates as passed describes a complete, error-free run by every virtual
   * user, whose rounded times miss no limit by more than half a unit, and some elapsed time
   * within the limits explains both its elapsed time and its throughput.
   */
  lemma PassedReceiptIsSound(r: Report, d: Duration, round: Rounding)
    requires Validates(r, d, round) && r.passed && ProperRounding(round)
    ensures r.completed == Scheduled(d) && r.errors == 0
    ensures r.catalog == 7 * d && r.detail == 3 * d
    ensures 200 * r.http5xx < r.completed
    ensures r.successful == r.completed - r.http5xx
    ensures r.participated == if Scheduled(d) < LOGICAL_VIRTUAL_USERS then Scheduled(d)
                              else LOGICAL_VIRTUAL_USERS
    ensures 1 <= r.peak <= MAX_CONCURRENCY && r.violations == 0 && r.revisionConsistent
    ensures LimitsUpToRounding(r, d)
    ensures exists elapsed: real :: WithinLimits(elapsed, d) && Explains(elapsed, r)
  {
    ScheduledBounds(d);
    RateGateSurvivesRounding(round, r.http5xx, r.completed);
    var f := FeasibleElapsed(r);
    var elapsed := Max(f.low, d as real);
    ThroughputOfFeasible(r, elapsed);
    assert WithinLimits(elapsed, d) && Explains(elapsed, r);
  }

  // ---------------------------------------------------------------- a rounding

  /** Rounding half up to three decimal places. */
  function HalfUpThree(x: real): real {
    (x * 1000.0 + 0.5).Floor as real / 1000.0
  }

  /** Rounding half up to six decimal places. */
  function HalfUpSix(x: real): real {
    (x * 1_000_000.0 + 0.5).Floor as real / 1_000_000.0
  }

  lemma FloorOrder(x: real, y: real)
    requires x <= y
    ensures x.Floor <= y.Floor
  {
  }

  lemma HalfUpThreeRounds(x: real, y: real)
    ensures x <= y ==> HalfUpThree(x) <= HalfUpThree(y)
    ensures -0.0005 <= HalfUpThree(x) - x <= 0.0005
    ensures HalfUpThree(0.0) == 0.0
  {
    if x <= y {
      FloorOrder(x * 1000.0 + 0.5, y * 1000.0 + 0.5);
    }
    var k := (x * 1000.0 + 0.5).Floor;
    assert k as real <= x * 1000.0 + 0.5 < k as real + 1.0;
  }

  lemma HalfUpSixRounds(x: real, y: real)
    ensures x <= y ==> HalfUpSix(x) <= HalfUpSix(y)
    ensures -0.0000005 <= HalfUpSix(x) - x <= 0.0000005
    ensures HalfUpSix(0.0) == 0.0 && HalfUpSix(0.005) == 0.005
    ensures (HalfUpSix(x) * 1_000_000.0).Floor as real == HalfUpSix(x) * 1_000_000.0
  {
    if x <= y {
      FloorOrder(x * 1_000_000.0 + 0.5, y * 1_000_000.0 + 0.5);
    }
    var k := (x * 1_000_000.0 + 0.5).Floor;
    assert k as real <= x * 1_000_000.0 + 0.5 < k as real + 1.0;
    assert (0.005 * 1_000_000.0 + 0.5).Floor == 5000;
  }

  /** There is a rounding of the kind that the theorems assume. */
  lemma HalfUpIsProper()
    ensures ProperRounding(Rounding(HalfUpThree, HalfUpSix)) && SixDigits(HalfUpSix)
  {
    hide HalfUpThree, HalfUpSix;
    var three, six := HalfUpThree, HalfUpSix;
    forall x: real, y: real
      ensures x <= y ==> three(x) <= three(y)
      ensures -0.0005 <= three(x) - x <= 0.0005
    {
      HalfUpThreeRounds(x, y);
    }
    forall x: real, y: real
      ensures x <= y ==> six(x) <= six(y)
      ensures -0.0000005 <= six(x) - x <= 0.0000005
      ensures (six(x) * 1_000_000.0).Floor as real == six(x) * 1_000_000.0
    {
      HalfUpSixRounds(x, y);
    }
    HalfUpThreeRounds(0.0, 0.0);
    HalfUpSixRounds(0.0, 0.0);
  }
}
