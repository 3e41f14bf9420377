/**
 * What a load report says about the answers behind it, in terms of their fields alone: counts
 * as numbers of answers, percentiles as shares of answers, flags as conditions on answers.
 */
module ReportMeaning {
  import opened Common
  import opened LoadPacing
  import opened LoadReport
  import opened LoadReceipt

  // ---------------------------------------------------------------- counting answers

  /** The places of the answers that have a property. */
  ghost function Places(requests: seq<CompletedRequest>, p: CompletedRequest -> bool): set<int> {
    set i | 0 <= i < |requests| && p(requests[i])
  }

  lemma {:induction false} CountIsPlaces(
    requests: seq<CompletedRequest>, p: CompletedRequest -> bool)
    ensures CountWhere(requests, p) == |Places(requests, p)|
  {
    if requests != [] {
      var last := |requests| - 1;
      var front := requests[..last];
      CountIsPlaces(front, p);
      if p(requests[last]) {
        assert Places(requests, p) == Places(front, p) + {last};
      } else {
        assert Places(requests, p) == Places(front, p);
      }
    }
  }

  ghost function Catalogs(requests: seq<CompletedRequest>): set<int> {
    set i | 0 <= i < |requests| && requests[i].kind == CatalogPage
  }

  ghost function Details(requests: seq<CompletedRequest>): set<int> {
    set i | 0 <= i < |requests| && requests[i].kind == DetailPage
  }

  /** The valid answers with status 200. */
  ghost function Successes(requests: seq<CompletedRequest>): set<int> {
    set i | 0 <= i < |requests| && requests[i].observation.valid
            && requests[i].observation.status == Some(200)
  }

  /** The answers with a status from 500 to 599, valid or not. */
  ghost function ServerErrors(requests: seq<CompletedRequest>): set<int> {
    set i | 0 <= i < |requests| && requests[i].observation.status.Some?
            && 500 <= requests[i].observation.status.value < 600
  }

  /** No status, another status, or an invalid page. */
  ghost predicate Failed(o: Observation) {
    match o.status
    case None => true
    case Some(status) => !(500 <= status < 600) && !(status == 200 && o.valid)
  }

  ghost function Failures(requests: seq<CompletedRequest>): set<int> {
    set i | 0 <= i < |requests| && Failed(requests[i].observation)
  }

  ghost function UsersSeen(requests: seq<CompletedRequest>): set<int> {
    set i | 0 <= i < |requests| && 0 <= requests[i].user < 20 :: requests[i].user
  }

  lemma DisjointSizes(a: set<int>, b: set<int>, c: set<int>, n: nat)
    requires a !! b && (a + b) !! c
    requires forall i :: i in a || i in b || i in c <==> 0 <= i < n
    ensures |a| + |b| + |c| == n
  {
    BetweenSize(0, n);
    assert Between(0, n) == (a + b) + c;
    assert |(a + b) + c| == |a + b| + |c|;
  }

  lemma OutcomesPartition(requests: seq<CompletedRequest>)
    ensures |Successes(requests)| + |ServerErrors(requests)| + |Failures(requests)|
         == |requests|
  {
    DisjointSizes(Successes(requests), ServerErrors(requests), Failures(requests), |requests|);
  }

  lemma OutcomeCounts(requests: seq<CompletedRequest>)
    ensures CountWhere(requests, IsSuccessful) == |Successes(requests)|
    ensures CountWhere(requests, IsServerError) == |ServerErrors(requests)|
  {
    CountIsPlaces(requests, IsSuccessful);
    CountIsPlaces(requests, IsServerError);
    assert Places(requests, IsSuccessful) == Successes(requests);
    assert Places(requests, IsServerError) == ServerErrors(requests);
  }

  /**
   * The counts of a report: by kind, by outcome and by virtual user, for any list of answers.
   * An invalid page with status 200 is an error.
   */
  lemma ReportCountsAnswers(
    d: Duration, requests: seq<CompletedRequest>, m: Measurements, round: Rounding)
    ensures var r := BuildReport(d, requests, m, round);
            && r.completed == |requests|
            && r.catalog == |Catalogs(requests)| && r.detail == |Details(requests)|
            && r.successful == |Successes(requests)|
            && r.http5xx == |ServerErrors(requests)|
            && r.errors == |Failures(requests)|
            && r.participated == |UsersSeen(requests)|
  {
    CountIsPlaces(requests, IsCatalog);
    CountIsPlaces(requests, IsDetail);
    assert Places(requests, IsCatalog) == Catalogs(requests);
    assert Places(requests, IsDetail) == Details(requests);
    OutcomeCounts(requests);
    OutcomesPartition(requests);
    ParticipantsAreUsers(requests);
  }

  lemma ParticipantsAreUsers(requests: seq<CompletedRequest>)
    ensures Participants(requests) == UsersSeen(requests)
  {
    forall u
      ensures u in Participants(requests) <==> u in UsersSeen(requests)
    {
      if u in Participants(requests) {
        var r :| r in requests && 0 <= r.user < LOGICAL_VIRTUAL_USERS && r.user == u;
        var i :| 0 <= i < |requests| && requests[i] == r;
        assert requests[i].user == u;
      }
      if u in UsersSeen(requests) {
        var i :| 0 <= i < |requests| && requests[i].user == u;
        assert requests[i] in requests;
      }
    }
  }

  // ---------------------------------------------------------------- one revision

  /** Some answer succeeded, and all that did show the same revision token. */
  ghost predicate OneRevision(requests: seq<CompletedRequest>) {
    exists token: string ::
      && (exists i :: i in Successes(requests) && requests[i].observation.token == Some(token))
      && forall i :: i in Successes(requests) ==> requests[i].observation.token == Some(token)
  }

  lemma TokensOfSuccesses(requests: seq<CompletedRequest>, token: string)
    ensures token in SuccessTokens(requests)
       <==> exists i :: i in Successes(requests) && requests[i].observation.token == Some(token)
  {
    if token in SuccessTokens(requests) {
      var r :| r in requests && Successful(r.observation) && r.observation.token == Some(token);
      var i :| 0 <= i < |requests| && requests[i] == r;
      assert i in Successes(requests);
    }
    if i :| i in Successes(requests) && requests[i].observation.token == Some(token) {
      assert requests[i] in requests;
    }
  }

  lemma RevisionConsistentIff(requests: seq<CompletedRequest>)
    ensures RevisionConsistent(requests) <==> OneRevision(requests)
  {
    var tokens := SuccessTokens(requests);
    forall token: string
      ensures token in tokens
         <==> exists i :: i in Successes(requests) && requests[i].observation.token == Some(token)
    {
      TokensOfSuccesses(requests, token);
    }
    if RevisionConsistent(requests) {
      SingleToken(requests, tokens);
    }
    if OneRevision(requests) {
      var token: string :|
        && (exists i :: i in Successes(requests) && requests[i].observation.token == Some(token))
        && forall i :: i in Successes(requests) ==> requests[i].observation.token == Some(token);
      assert tokens == {token};
      var k :| k in Successes(requests);
      assert Successful(requests[k].observation);
      forall i | 0 <= i < |requests| && Successful(requests[i].observation)
        ensures requests[i].observation.token.Some?
      {
        assert i in Successes(requests);
      }
    }
  }

  lemma SingleToken(requests: seq<CompletedRequest>, tokens: set<string>)
    requires RevisionConsistent(requests) && tokens == SuccessTokens(requests)
    ensures OneRevision(requests)
  {
    var k :| 0 <= k < |requests| && Successful(requests[k].observation);
    var token := requests[k].observation.token.value;
    assert requests[k] in requests && token in tokens;
    SubsetOfEqualSize({token}, tokens);
    forall i | i in Successes(requests)
      ensures requests[i].observation.token == Some(token)
    {
      assert Successful(requests[i].observation) && requests[i] in requests;
      assert requests[i].observation.token.value in tokens;
    }
    assert k in Successes(requests);
  }

  // ---------------------------------------------------------------- percentiles as shares

  /** The answers that took at most the given time. */
  ghost function Within(requests: seq<CompletedRequest>, limit: real): set<int> {
    set i | 0 <= i < |requests| && requests[i].observation.latency <= limit
  }

  ghost function Faster(requests: seq<CompletedRequest>, limit: real): set<int> {
    set i | 0 <= i < |requests| && requests[i].observation.latency < limit
  }

  lemma CountAtMostAppend(values: seq<real>, last: real, x: real)
    ensures CountAtMost(values + [last], x)
         == CountAtMost(values, x) + (if last <= x then 1 else 0)
    ensures CountBelow(values + [last], x)
         == CountBelow(values, x) + (if last < x then 1 else 0)
  {
    if values == [] {
      assert values + [last] == [last];
    } else {
      CountAtMostAppend(values[1..], last, x);
      assert (values + [last])[1..] == values[1..] + [last];
    }
  }

  lemma WithinOneMore(requests: seq<CompletedRequest>, last: CompletedRequest, x: real)
    ensures |Within(requests + [last], x)|
         == |Within(requests, x)| + (if last.observation.latency <= x then 1 else 0)
  {
    var before, after := Within(requests, x), Within(requests + [last], x);
    if last.observation.latency <= x {
      assert after == before + {|requests|};
    } else {
      assert after == before;
    }
  }

  lemma FasterOneMore(requests: seq<CompletedRequest>, last: CompletedRequest, x: real)
    ensures |Faster(requests + [last], x)|
         == |Faster(requests, x)| + (if last.observation.latency < x then 1 else 0)
  {
    var before, after := Faster(requests, x), Faster(requests + [last], x);
    if last.observation.latency < x {
      assert after == before + {|requests|};
    } else {
      assert after == before;
    }
  }

  lemma {:induction false} LatencyCounts(requests: seq<CompletedRequest>, x: real)
    ensures CountAtMost(Latencies(requests), x) == |Within(requests, x)|
    ensures CountBelow(Latencies(requests), x) == |Faster(requests, x)|
  {
    if requests != [] {
      var front, last := requests[..|requests| - 1], requests[|requests| - 1];
      LatencyCounts(front, x);
      WithinOneMore(front, last, x);
      FasterOneMore(front, last, x);
      assert requests == front + [last];
      assert Latencies(requests) == Latencies(front) + [last.observation.latency];
      CountAtMostAppend(Latencies(front), last.observation.latency, x);
    }
  }

  lemma {:induction false} CountsMonotone(values: seq<real>, x: real, y: real)
    ensures x <= y ==> CountAtMost(values, x) <= CountAtMost(values, y)
    ensures x < y ==> CountAtMost(values, x) <= CountBelow(values, y)
  {
    if values != [] {
      CountsMonotone(values[1..], x, y);
    }
  }

  /** A percentile stays within a limit exactly when that share of the answers does. */
  lemma PercentileWithinIff(requests: seq<CompletedRequest>, percentile: nat, limit: real)
    requires requests != [] && 1 <= percentile <= 100
    ensures Percentile(Latencies(requests), percentile) <= limit
       <==> 100 * |Within(requests, limit)| >= percentile * |requests|
  {
    var values := Latencies(requests);
    var v := Percentile(values, percentile);
    PercentileSplits(values, percentile);
    CountsMonotone(values, v, limit);
    CountsMonotone(values, limit, v);
    LatencyCounts(requests, limit);
  }

  /** The latency of some answer, reached by the given share of the answers and not by less. */
  ghost predicate IsPercentile(requests: seq<CompletedRequest>, percentile: nat, i: nat) {
    && i < |requests|
    && 100 * |Within(requests, requests[i].observation.latency)| >= percentile * |requests|
    && 100 * |Faster(requests, requests[i].observation.latency)| < percentile * |requests|
  }

  lemma PercentileOfAnswers(requests: seq<CompletedRequest>, percentile: nat) returns (i: nat)
    requires requests != [] && 1 <= percentile <= 100
    ensures IsPercentile(requests, percentile, i)
    ensures Percentile(Latencies(requests), percentile) == requests[i].observation.latency
  {
    var values := Latencies(requests);
    var v := Percentile(values, percentile);
    PercentileSplits(values, percentile);
    var k :| 0 <= k < |values| && values[k] == v;
    i := k;
    LatencyCounts(requests, v);
  }

  /** A rounded latency of an answer at the given percentile. */
  ghost predicate ReportsPercentile(
    shown: real, requests: seq<CompletedRequest>, percentile: nat, round: real -> real)
  {
    exists i: nat :: IsPercentile(requests, percentile, i)
                     && shown == round(requests[i].observation.latency)
  }

  lemma PercentileIsReported(
    requests: seq<CompletedRequest>, percentile: nat, round: real -> real)
    requires requests != [] && 1 <= percentile <= 100
    ensures ReportsPercentile(round(Percentile(Latencies(requests), percentile)), requests,
                              percentile, round)
  {
    hide IsPercentile;
    var i := PercentileOfAnswers(requests, percentile);
  }

  lemma MaximumIsReported(requests: seq<CompletedRequest>, round: real -> real)
    requires requests != []
    ensures ReportsPercentile(round(MaxOf(Latencies(requests))), requests, 100, round)
  {
    hide IsPercentile;
    var values := Latencies(requests);
    var top := MaxOf(values);
    AllAtMost(values, top);
    LatencyCounts(requests, top);
    var k :| 0 <= k < |values| && values[k] == top;
    MaximumIsLast(requests, k);
  }

  /** The reported latencies are those of answers at the median, the 95th percentile, the end. */
  lemma ReportLatenciesAreAnswers(
    d: Duration, requests: seq<CompletedRequest>, m: Measurements, round: Rounding)
    requires requests != []
    ensures var r := BuildReport(d, requests, m, round);
            && ReportsPercentile(r.p50, requests, 50, round.three)
            && ReportsPercentile(r.p95, requests, 95, round.three)
            && ReportsPercentile(r.max, requests, 100, round.three)
  {
    hide ReportsPercentile, Percentile, MaxOf, Latencies;
    PercentileIsReported(requests, 50, round.three);
    PercentileIsReported(requests, 95, round.three);
    MaximumIsReported(requests, round.three);
  }

  lemma {:induction false} AllAtMost(values: seq<real>, x: real)
    requires forall i :: 0 <= i < |values| ==> values[i] <= x
    ensures CountAtMost(values, x) == |values|
  {
    if values != [] {
      AllAtMost(values[1..], x);
    }
  }

  lemma MaximumIsLast(requests: seq<CompletedRequest>, k: nat)
    requires k < |requests|
    requires |Within(requests, requests[k].observation.latency)| == |requests|
    ensures IsPercentile(requests, 100, k)
  {
    var faster := Faster(requests, requests[k].observation.latency);
    var others := Between(0, |requests|) - {k};
    BetweenSize(0, |requests|);
    assert faster <= others && |others| == |requests| - 1;
    SubsetSize(faster, others);
  }

  lemma SubsetSize<T>(a: set<T>, b: set<T>)
    requires a <= b
    ensures |a| <= |b|
  {
    assert b == a + (b - a);
  }

  // ---------------------------------------------------------------- the flags

  ghost predicate RoundRobin(d: Duration, requests: seq<CompletedRequest>) {
    && |requests| == 10 * d
    && forall i :: 0 <= i < |requests| ==> requests[i].user == i % 20
  }

  /** The measured values, rounded, and every flag of a report for any list of answers. */
  lemma ReportFlagsMean(
    d: Duration, requests: seq<CompletedRequest>, m: Measurements, round: Rounding)
    ensures var r := BuildReport(d, requests, m, round);
            && r.elapsed == round.three(m.elapsedSeconds)
            && r.p95Jitter == round.three(m.p95Jitter) && r.maxJitter == round.three(m.maxJitter)
            && r.minimumInterval == round.three(m.minimumInterval)
            && r.violations == m.violations && r.peak == m.peak
            && (m.elapsedSeconds >= 1.0 ==>
                  r.throughput == round.three((|requests| as real) / m.elapsedSeconds))
            && (requests != [] ==>
                  r.http5xxRate
                  == round.six((|ServerErrors(requests)| as real) / (|requests| as real)))
            && (r.durationMet <==> d as real <= m.elapsedSeconds <= d as real + 3.0)
            && (r.jitterMet <==> m.p95Jitter <= 100.0)
            && (r.noBurstMet <==> m.violations == 0 && m.minimumInterval + 0.001 >= 90.0)
            && (r.scheduleMet <==> r.jitterMet && r.noBurstMet)
            && (r.concurrencyMet <==> 1 <= m.peak <= 20)
            && (r.usersMet <==> RoundRobin(d, requests))
            && (r.workloadConsistent <==>
                  |Catalogs(requests)| == 7 * d && |Details(requests)| == 3 * d)
            && (r.revisionConsistent <==> OneRevision(requests))
  {
    ReportCountsAnswers(d, requests, m, round);
    RevisionConsistentIff(requests);
    ScheduledBounds(d);
    UsersAreRoundRobin(d, requests);
  }

  lemma UsersAreRoundRobin(d: Duration, requests: seq<CompletedRequest>)
    ensures Users(requests) == ExpectedUsers(Scheduled(d)) <==> RoundRobin(d, requests)
  {
    ScheduledBounds(d);
    if Users(requests) == ExpectedUsers(Scheduled(d)) {
      assert |requests| == |Users(requests)| == 10 * d;
      forall i | 0 <= i < |requests|
        ensures requests[i].user == i % 20
      {
        assert Users(requests)[i] == ExpectedUsers(Scheduled(d))[i];
      }
    }
  }

  // ---------------------------------------------------------------- the gate

  /** What must be true of the answers and measurements of a run that passes. */
  ghost predicate GoodRun(d: Duration, requests: seq<CompletedRequest>, m: Measurements) {
    && |Failures(requests)| == 0
    && OneRevision(requests)
    && 200 * |ServerErrors(requests)| < |requests|
    && 100 * |Within(requests, 500.0)| >= 95 * |requests|
    && m.elapsedSeconds <= d as real + 3.0
    && m.p95Jitter <= 100.0
    && m.violations == 0 && m.minimumInterval + 0.001 >= 90.0
    && m.peak >= 1
  }

  /**
   * A completed run passes exactly when no answer failed, all successes show one revision,
   * server errors are below one in 200, 95 of 100 answers came within half a second, and the
   * run kept its time, jitter, interval and concurrency limits.
   */
  lemma PassesIffGood(
    d: Duration, requests: seq<CompletedRequest>, m: Measurements, round: Rounding)
    requires CompletedRun(d, requests, m)
    ensures BuildReport(d, requests, m, round).passed <==> GoodRun(d, requests, m)
  {
    hide BuildReport, OneRevision, RevisionConsistent, Successes, ServerErrors, Failures, Within,
         Percentile, CountWhere, Latencies, Places;
    ScheduledBounds(d);
    CompletedRunPassesIff(d, requests, m, round);
    ReportCountsAnswers(d, requests, m, round);
    OutcomesPartition(requests);
    NoErrorsIff(requests);
    OutcomeCounts(requests);
    RevisionConsistentIff(requests);
    PercentileWithinIff(requests, 95, 500.0);
  }

  /** The same for any list of answers, however it came about. */
  ghost predicate PassingReport(d: Duration, requests: seq<CompletedRequest>, m: Measurements) {
    && |Catalogs(requests)| == 7 * d && |Details(requests)| == 3 * d
    && RoundRobin(d, requests)
    && m.elapsedSeconds >= d as real
    && m.peak <= 20
    && GoodRun(d, requests, m)
  }

  lemma KindsPartition(requests: seq<CompletedRequest>)
    ensures |Catalogs(requests)| + |Details(requests)| == |requests|
  {
    DisjointSizes(Catalogs(requests), Details(requests), {}, |requests|);
  }

  /** A report passes exactly when its answers and measurements meet every condition. */
  lemma PassedIff(
    d: Duration, requests: seq<CompletedRequest>, m: Measurements, round: Rounding)
    ensures BuildReport(d, requests, m, round).passed <==> PassingReport(d, requests, m)
  {
    hide OneRevision, RevisionConsistent, Successes, ServerErrors, Failures, Within,
         Percentile, CountWhere, Latencies, Catalogs, Details, RoundRobin, Users;
    ScheduledBounds(d);
    ReportCountsAnswers(d, requests, m, round);
    KindsPartition(requests);
    RevisionConsistentIff(requests);
    UsersAreRoundRobin(d, requests);
    if |requests| == 10 * d {
      PercentileWithinIff(requests, 95, 500.0);
      var n, h := |requests|, |ServerErrors(requests)|;
      OutcomeCounts(requests);
      RateBelowIff(h as real, n as real, HTTP_5XX_RATE_LIMIT);
      if m.elapsedSeconds >= d as real {
        ThroughputGateIsElapsed(n as real, m.elapsedSeconds, MaximumElapsed(d));
      }
    }
  }

  /** An answer is invalid although its status is 200: the run cannot pass. */
  lemma InvalidPageFailsRun(
    d: Duration, requests: seq<CompletedRequest>, m: Measurements, round: Rounding, i: nat)
    requires CompletedRun(d, requests, m) && i < |requests|
    requires requests[i].observation.status == Some(200) && !requests[i].observation.valid
    ensures BuildReport(d, requests, m, round).errors >= 1
    ensures !BuildReport(d, requests, m, round).passed
  {
    assert i in Failures(requests);
    SubsetSize({i}, Failures(requests));
    ReportCountsAnswers(d, requests, m, round);
    PassesIffGood(d, requests, m, round);
  }
}
