/** Percentiles, the workload plan, observed concurrency and the report of a load run. */
module LoadReport {
  import opened Common
  import opened Products
  import opened LoadPacing

  const REQUESTS_PER_SECOND := 10
  const LOGICAL_VIRTUAL_USERS := 20
  const MAX_CONCURRENCY := 20
  const PHASE0_DURATION_SECONDS := 900
  const P95_LIMIT_MS := 500.0
  const HTTP_5XX_RATE_LIMIT := 0.005
  const P95_SCHEDULE_JITTER_LIMIT_MS := 100.0
  const COMPLETION_GRACE_SECONDS := 3.0

  // ---------------------------------------------------------------- percentiles

  ghost predicate Ascending(values: seq<real>) {
    forall i, j :: 0 <= i < j < |values| ==> values[i] <= values[j]
  }

  function Insert(x: real, sorted: seq<real>): seq<real> {
    if sorted == [] || x <= sorted[0] then [x] + sorted else [sorted[0]] + Insert(x, sorted[1..])
  }

  function Sorted(values: seq<real>): seq<real> {
    if values == [] then [] else Insert(values[0], Sorted(values[1..]))
  }

  lemma {:induction false} InsertBound(x: real, sorted: seq<real>, low: real)
    requires low <= x && forall i :: 0 <= i < |sorted| ==> low <= sorted[i]
    ensures forall i :: 0 <= i < |Insert(x, sorted)| ==> low <= Insert(x, sorted)[i]
  {
    if sorted != [] && x > sorted[0] {
      InsertBound(x, sorted[1..], low);
    }
  }

  lemma {:induction false} InsertSorts(x: real, sorted: seq<real>)
    requires Ascending(sorted)
    ensures Ascending(Insert(x, sorted))
  {
    if sorted != [] && x > sorted[0] {
      InsertSorts(x, sorted[1..]);
      InsertBound(x, sorted[1..], sorted[0]);
    }
  }

  lemma {:induction false} InsertKeepsElements(x: real, sorted: seq<real>)
    ensures multiset(Insert(x, sorted)) == multiset(sorted) + multiset{x}
    ensures |Insert(x, sorted)| == |sorted| + 1
  {
    if sorted != [] && x > sorted[0] {
      InsertKeepsElements(x, sorted[1..]);
      assert sorted == [sorted[0]] + sorted[1..];
    }
  }

  lemma {:induction false} SortedSorts(values: seq<real>)
    ensures Ascending(Sorted(values)) && multiset(Sorted(values)) == multiset(values)
    ensures |Sorted(values)| == |values|
  {
    if values != [] {
      SortedSorts(values[1..]);
      InsertSorts(values[0], Sorted(values[1..]));
      InsertKeepsElements(values[0], Sorted(values[1..]));
      assert values == [values[0]] + values[1..];
    }
  }

  /** The index of the nearest-rank percentile among the sorted values. */
  function Rank(n: nat, percentile: nat): (k: nat)
    requires n > 0 && percentile <= 100
    ensures k < n
  {
    var ceiling := (percentile * n + 99) / 100;
    if ceiling == 0 then 0 else ceiling - 1
  }

  function Percentile(values: seq<real>, percentile: nat): real
    requires percentile <= 100
  {
    if values == [] then 0.0
    else
      SortedSorts(values);
      Sorted(values)[Rank(|values|, percentile)]
  }

  function CountAtMost(values: seq<real>, x: real): nat {
    if values == [] then 0 else (if values[0] <= x then 1 else 0) + CountAtMost(values[1..], x)
  }

  function CountBelow(values: seq<real>, x: real): nat {
    if values == [] then 0 else (if values[0] < x then 1 else 0) + CountBelow(values[1..], x)
  }

  lemma {:induction false} InsertCounts(y: real, sorted: seq<real>, x: real)
    ensures CountAtMost(Insert(y, sorted), x)
         == CountAtMost(sorted, x) + (if y <= x then 1 else 0)
    ensures CountBelow(Insert(y, sorted), x) == CountBelow(sorted, x) + (if y < x then 1 else 0)
  {
    if sorted == [] || y <= sorted[0] {
      assert ([y] + sorted)[1..] == sorted;
    } else {
      InsertCounts(y, sorted[1..], x);
      assert ([sorted[0]] + Insert(y, sorted[1..]))[1..] == Insert(y, sorted[1..]);
    }
  }

  lemma {:induction false} SortedCounts(values: seq<real>, x: real)
    ensures CountAtMost(Sorted(values), x) == CountAtMost(values, x)
    ensures CountBelow(Sorted(values), x) == CountBelow(values, x)
  {
    if values != [] {
      SortedCounts(values[1..], x);
      InsertCounts(values[0], Sorted(values[1..]), x);
    }
  }

  lemma {:induction false} NoneBelow(values: seq<real>, x: real)
    requires forall i :: 0 <= i < |values| ==> values[i] >= x
    ensures CountBelow(values, x) == 0
  {
    if values != [] {
      NoneBelow(values[1..], x);
    }
  }

  lemma {:induction false} CountsOfAscending(values: seq<real>, k: nat)
    requires Ascending(values) && k < |values|
    ensures CountAtMost(values, values[k]) >= k + 1
    ensures CountBelow(values, values[k]) <= k
  {
    if k == 0 {
      NoneBelow(values, values[0]);
    } else {
      CountsOfAscending(values[1..], k - 1);
    }
  }

  /**
   * The percentile is an element that at least that share of the values does not exceed, and
   * that less than that share of the values is below.
   */
  lemma PercentileSplits(values: seq<real>, percentile: nat)
    requires values != [] && 1 <= percentile <= 100
    ensures var v := Percentile(values, percentile);
            && v in values
            && 100 * CountAtMost(values, v) >= percentile * |values|
            && 100 * CountBelow(values, v) < percentile * |values|
  {
    SortedSorts(values);
    var v := Percentile(values, percentile);
    assert v in Sorted(values) && v in multiset(Sorted(values));
    var k := Rank(|values|, percentile);
    CountsOfAscending(Sorted(values), k);
    SortedCounts(values, v);
    RankBounds(|values|, percentile);
  }

  lemma RankBounds(n: nat, percentile: nat)
    requires n > 0 && 1 <= percentile <= 100
    ensures 100 * (Rank(n, percentile) + 1) >= percentile * n
    ensures 100 * Rank(n, percentile) < percentile * n
  {
    var product := percentile * n;
    assert product >= 1;
  }

  lemma RankMonotone(n: nat, lower: nat, higher: nat)
    requires n > 0 && lower <= higher <= 100
    ensures Rank(n, lower) <= Rank(n, higher)
  {
    MulLe(lower, higher, n);
    DivisionMonotone(lower * n + 99, higher * n + 99, 100);
  }

  lemma DivisionMonotone(x: int, y: int, m: int)
    requires x <= y && m > 0
    ensures x / m <= y / m
  {
    DivisionBounds(x, m);
    DivisionBounds(y, m);
    MulAdd(y / m, 1, m);
    CancelLt(x / m, y / m + 1, m);
  }

  function MaxOf(values: seq<real>): (m: real)
    ensures forall i :: 0 <= i < |values| ==> values[i] <= m
    ensures values != [] ==> m in values
  {
    if values == [] then 0.0
    else if |values| == 1 then values[0]
    else
      var rest := MaxOf(values[1..]);
      assert values == [values[0]] + values[1..];
      Max(values[0], rest)
  }

  /** The smallest value, zero when there is none. */
  function MinOf(values: seq<real>): (m: real)
    ensures forall i :: 0 <= i < |values| ==> m <= values[i]
    ensures if values == [] then m == 0.0 else m in values
  {
    if values == [] then 0.0
    else if |values| == 1 then values[0]
    else
      var rest := MinOf(values[1..]);
      assert values == [values[0]] + values[1..];
      if values[0] <= rest then values[0] else rest
  }

  ghost predicate NonNegative(values: seq<real>) {
    forall i :: 0 <= i < |values| ==> values[i] >= 0.0
  }

  /** Median, 95th percentile and maximum are ordered, and non-negative on such values. */
  lemma PercentilesOrdered(values: seq<real>, lower: nat, higher: nat)
    requires lower <= higher <= 100 && NonNegative(values)
    ensures 0.0 <= Percentile(values, lower) <= Percentile(values, higher) <= MaxOf(values)
  {
    if values != [] {
      SortedSorts(values);
      RankMonotone(|values|, lower, higher);
      var v, w := Percentile(values, lower), Percentile(values, higher);
      assert v in multiset(Sorted(values)) && w in multiset(Sorted(values));
      assert v in values && w in values;
    }
  }

  // ---------------------------------------------------------------- the plan

  datatype Kind = CatalogPage | DetailPage

  /** Ten slots; which of the five catalog URLs a slot asks for does not matter here. */
  const WORKLOAD_SLOTS: seq<string> :=
    ["catalog", "list_vegetable", "search_vegetable", "catalog", "list_fruit", "search_fruit",
     "catalog", "detail", "detail", "detail"]

  function RequestKind(index: nat): Kind {
    if WORKLOAD_SLOTS[index % 10] == "detail" then DetailPage else CatalogPage
  }

  lemma SlotKinds(index: nat)
    ensures RequestKind(index) == if index % 10 >= 7 then DetailPage else CatalogPage
  {
    assert "catalog" != "detail" by { assert "catalog"[0] != "detail"[0]; }
    assert "list_vegetable" != "detail" by { assert "list_vegetable"[0] != "detail"[0]; }
    assert "search_vegetable" != "detail" by { assert "search_vegetable"[0] != "detail"[0]; }
    assert "list_fruit" != "detail" by { assert "list_fruit"[0] != "detail"[0]; }
    assert "search_fruit" != "detail" by { assert "search_fruit"[0] != "detail"[0]; }
  }

  // ---------------------------------------------------------------- observed concurrency

  lemma AtMostOnePerUser(users: set<int>)
    requires forall u :: u in users ==> 0 <= u < LOGICAL_VIRTUAL_USERS
    ensures |users| <= MAX_CONCURRENCY
  {
    var all := Between(0, LOGICAL_VIRTUAL_USERS);
    BetweenSize(0, LOGICAL_VIRTUAL_USERS);
    assert users <= all && all == users + (all - users);
  }

  /** A request begins or ends in the executor of one virtual user. */
  datatype Activity = Begin(user: int) | End(user: int)

  function ActiveUsers(events: seq<Activity>): set<int> {
    if events == [] then {}
    else
      var before := ActiveUsers(events[..|events| - 1]);
      match events[|events| - 1]
      case Begin(user) => before + {user}
      case End(user) => before - {user}
  }

  predicate Fits(events: seq<Activity>, next: Activity) {
    match next
    case Begin(user) => 0 <= user < LOGICAL_VIRTUAL_USERS && user !in ActiveUsers(events)
    case End(user) => user in ActiveUsers(events)
  }

  /** A virtual user's executor has one thread: it runs one request at a time. */
  predicate OneAtATime(events: seq<Activity>) {
    events == []
    || (OneAtATime(events[..|events| - 1])
        && Fits(events[..|events| - 1], events[|events| - 1]))
  }

  function Begun(events: seq<Activity>): nat {
    if events == [] then 0
    else Begun(events[..|events| - 1]) + (if events[|events| - 1].Begin? then 1 else 0)
  }

  function Peak(events: seq<Activity>): nat {
    if events == [] then 0
    else
      var before, now := Peak(events[..|events| - 1]), |ActiveUsers(events)|;
      if now > before then now else before
  }

  /** The peak is the greatest number of requests that were ever active at once. */
  lemma PeakIsGreatest(events: seq<Activity>)
    ensures forall i :: 0 <= i <= |events| ==> |ActiveUsers(events[..i])| <= Peak(events)
    ensures exists i :: 0 <= i <= |events| && |ActiveUsers(events[..i])| == Peak(events)
  {
    hide Peak, ActiveUsers;
    forall i | 0 <= i <= |events|
      ensures |ActiveUsers(events[..i])| <= Peak(events)
    {
      PeakBoundsPrefix(events, i);
    }
    var i := PeakIsReached(events);
  }

  lemma {:induction false} PeakBoundsPrefix(events: seq<Activity>, i: nat)
    requires i <= |events|
    ensures |ActiveUsers(events[..i])| <= Peak(events)
    decreases |events|
  {
    if i == |events| {
      assert events[..i] == events;
    } else {
      PeakBoundsPrefix(events[..|events| - 1], i);
      assert events[..|events| - 1][..i] == events[..i];
    }
  }

  lemma {:induction false} PeakIsReached(events: seq<Activity>) returns (i: nat)
    ensures i <= |events| && |ActiveUsers(events[..i])| == Peak(events)
  {
    assert events[..|events|] == events;
    if events == [] || |ActiveUsers(events)| > Peak(events[..|events| - 1]) {
      i := |events|;
    } else {
      i := PeakIsReached(events[..|events| - 1]);
      assert events[..|events| - 1][..i] == events[..i];
    }
  }

  lemma PeakOneMore(events: seq<Activity>, next: Activity)
    ensures ActiveUsers(events + [next])
         == (if next.Begin? then ActiveUsers(events) + {next.user}
             else ActiveUsers(events) - {next.user})
    ensures OneAtATime(events + [next]) <==> OneAtATime(events) && Fits(events, next)
    ensures Begun(events + [next]) == Begun(events) + (if next.Begin? then 1 else 0)
    ensures var now := |ActiveUsers(events + [next])|;
            Peak(events + [next]) == if now > Peak(events) then now else Peak(events)
  {
    assert (events + [next])[..|events|] == events;
  }

  /** Begun requests that have not ended are at most one per virtual user. */
  lemma {:induction false} ActiveUsersAreBegun(events: seq<Activity>)
    requires OneAtATime(events)
    ensures |ActiveUsers(events)| <= Begun(events)
    ensures forall u :: u in ActiveUsers(events) ==> 0 <= u < LOGICAL_VIRTUAL_USERS
  {
    if events != [] {
      var front, last := events[..|events| - 1], events[|events| - 1];
      ActiveUsersAreBegun(front);
      assert events == front + [last];
      PeakOneMore(front, last);
    }
  }

  /**
   * The peak is never more than the requests that were begun, nor than the virtual users, and
   * at least one when any request was begun.
   */
  lemma {:induction false} PeakIsBounded(events: seq<Activity>)
    requires OneAtATime(events)
    ensures Peak(events) <= Begun(events) && Peak(events) <= MAX_CONCURRENCY
    ensures Begun(events) >= 1 ==> Peak(events) >= 1
  {
    hide ActiveUsers;
    if events != [] {
      var front, last := events[..|events| - 1], events[|events| - 1];
      PeakIsBounded(front);
      assert events == front + [last];
      PeakOneMore(front, last);
      ActiveUsersAreBegun(events);
      AtMostOnePerUser(ActiveUsers(events));
      if last.Begin? {
        assert last.user in ActiveUsers(events);
      }
    }
  }

  /** The counter around each request. */
  class ActiveRequestCounter {
    var active: nat
    var peak: nat
    ghost var events: seq<Activity>

    ghost predicate Valid()
      reads this
    {
      OneAtATime(events) && active == |ActiveUsers(events)| && peak == Peak(events)
    }

    constructor ()
      ensures Valid() && events == []
    {
      active, peak, events := 0, 0, [];
    }

    method Enter(ghost user: int)
      requires Valid() && Fits(events, Begin(user))
      modifies this
      ensures Valid() && events == old(events) + [Begin(user)]
    {
      PeakOneMore(events, Begin(user));
      events := events + [Begin(user)];
      active := active + 1;
      peak := if active > peak then active else peak;
    }

    method Leave(ghost user: int)
      requires Valid() && Fits(events, End(user))
      modifies this
      ensures Valid() && events == old(events) + [End(user)] && peak == old(peak)
    {
      PeakOneMore(events, End(user));
      PeakBoundsPrefix(events, |events|);
      assert events[..|events|] == events;
      events := events + [End(user)];
      active := active - 1;
    }
  }

  // ---------------------------------------------------------------- the report

  datatype Observation = Observation(
    latency: real, status: Option<int>, valid: bool, token: Option<string>)

  datatype CompletedRequest = CompletedRequest(kind: Kind, user: int, observation: Observation)

  datatype Measurements = Measurements(
    elapsedSeconds: real, p95Jitter: real, maxJitter: real,
    minimumInterval: real, violations: nat, peak: nat)

  /** The measurements of a run from its elapsed milliseconds, jitters and intervals. */
  function Measure(elapsed: real, jitters: seq<real>, intervals: seq<real>, peak: nat)
    : Measurements
  {
    Measurements(elapsed / 1000.0, Percentile(jitters, 95), MaxOf(jitters), MinOf(intervals),
                 Violations(intervals), peak)
  }

  /** The scheduled number is ten a second; a profile lasts 1 to 900 seconds. */
  type Duration = d: nat | 1 <= d <= PHASE0_DURATION_SECONDS witness 1

  function Scheduled(d: Duration): nat {
    d * REQUESTS_PER_SECOND
  }

  datatype Report = Report(
    completed: nat, catalog: nat, detail: nat, successful: nat, errors: int, http5xx: nat,
    p50: real, p95: real, max: real, http5xxRate: real,
    elapsed: real, throughput: real, minimumThroughput: real,
    p95Jitter: real, maxJitter: real, minimumInterval: real, violations: nat,
    participated: nat, peak: nat,
    durationMet: bool, throughputMet: bool, jitterMet: bool, noBurstMet: bool, scheduleMet: bool,
    usersMet: bool, concurrencyMet: bool, workloadConsistent: bool, revisionConsistent: bool,
    passed: bool)

  /** Rounding to three or six places, whatever the tie rule. */
  datatype Rounding = Rounding(three: real -> real, six: real -> real)

  predicate Successful(o: Observation) {
    o.valid && o.status == Some(200)
  }

  predicate ServerError(o: Observation) {
    o.status.Some? && 500 <= o.status.value <= 599
  }

  predicate IsSuccessful(r: CompletedRequest) {
    Successful(r.observation)
  }

  predicate IsServerError(r: CompletedRequest) {
    ServerError(r.observation)
  }

  predicate IsCatalog(r: CompletedRequest) {
    r.kind == CatalogPage
  }

  predicate IsDetail(r: CompletedRequest) {
    r.kind == DetailPage
  }

  function CountWhere(requests: seq<CompletedRequest>, p: CompletedRequest -> bool): nat {
    if requests == [] then 0
    else CountWhere(requests[..|requests| - 1], p) + (if p(requests[|requests| - 1]) then 1 else 0)
  }

  function Latencies(requests: seq<CompletedRequest>): seq<real> {
    seq(|requests|, i requires 0 <= i < |requests| => requests[i].observation.latency)
  }

  function Users(requests: seq<CompletedRequest>): seq<int> {
    seq(|requests|, i requires 0 <= i < |requests| => requests[i].user)
  }

  function Participants(requests: seq<CompletedRequest>): set<int> {
    set r | r in requests && 0 <= r.user < LOGICAL_VIRTUAL_USERS :: r.user
  }

  function ExpectedUsers(scheduled: nat): seq<int> {
    seq(scheduled, i requires 0 <= i < scheduled => i % LOGICAL_VIRTUAL_USERS)
  }

  function SuccessTokens(requests: seq<CompletedRequest>): set<string> {
    set r | r in requests && Successful(r.observation) && r.observation.token.Some?
      :: r.observation.token.value
  }

  predicate RevisionConsistent(requests: seq<CompletedRequest>) {
    && (exists i :: 0 <= i < |requests| && Successful(requests[i].observation))
    && (forall i :: 0 <= i < |requests| && Successful(requests[i].observation) ==>
          requests[i].observation.token.Some?)
    && |SuccessTokens(requests)| == 1
  }

  function RateOf(http5xx: nat, completed: nat): real {
    if completed == 0 then 1.0 else (http5xx as real) / (completed as real)
  }

  function MaximumElapsed(d: Duration): real {
    d as real + COMPLETION_GRACE_SECONDS
  }

  function RawMinimumThroughput(d: Duration): real {
    (Scheduled(d) as real) / MaximumElapsed(d)
  }

  predicate WorkloadMatches(catalog: nat, detail: nat, d: Duration) {
    catalog == (Scheduled(d) * 7) / 10 && detail == (Scheduled(d) * 3) / 10
  }

  function BuildReport(
    d: Duration, requests: seq<CompletedRequest>, m: Measurements, round: Rounding): Report
  {
    var completed := |requests|;
    var successful := CountWhere(requests, IsSuccessful);
    var http5xx := CountWhere(requests, IsServerError);
    var errors := completed - successful - http5xx;
    var catalog := CountWhere(requests, IsCatalog);
    var detail := CountWhere(requests, IsDetail);
    var latencies := Latencies(requests);
    var p95 := Percentile(latencies, 95);
    var rate := RateOf(http5xx, completed);
    var throughput := (completed as real) / Max(m.elapsedSeconds, 0.001);
    var durationMet := d as real <= m.elapsedSeconds <= MaximumElapsed(d);
    var throughputMet := throughput >= RawMinimumThroughput(d);
    var jitterMet := m.p95Jitter <= P95_SCHEDULE_JITTER_LIMIT_MS;
    var noBurstMet := m.violations == 0 && m.minimumInterval + CLOCK_EPSILON >= RECOVERY_FLOOR;
    var usersMet := Users(requests) == ExpectedUsers(Scheduled(d));
    var concurrencyMet := 1 <= m.peak <= MAX_CONCURRENCY;
    var workload := WorkloadMatches(catalog, detail, d);
    var revision := RevisionConsistent(requests);
    Report(
      completed, catalog, detail, successful, errors, http5xx,
      round.three(Percentile(latencies, 50)), round.three(p95), round.three(MaxOf(latencies)),
      round.six(rate),
      round.three(m.elapsedSeconds), round.three(throughput),
      round.three(RawMinimumThroughput(d)),
      round.three(m.p95Jitter), round.three(m.maxJitter), round.three(m.minimumInterval),
      m.violations, |Participants(requests)|, m.peak,
      durationMet, throughputMet, jitterMet, noBurstMet, jitterMet && noBurstMet,
      usersMet, concurrencyMet, workload, revision,
      && completed == Scheduled(d)
      && workload
      && errors == 0
      && revision
      && p95 <= P95_LIMIT_MS
      && rate < HTTP_5XX_RATE_LIMIT
      && durationMet
      && throughputMet
      && (jitterMet && noBurstMet)
      && usersMet
      && concurrencyMet)
  }
}
