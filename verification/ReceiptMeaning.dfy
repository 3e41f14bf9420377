/**
 * What the receipt validator accepts: exactly the receipts whose every flag some unrounded
 * measurement explains. The interval tests of the validator decide this without searching.
 */
module ReceiptMeaning {
  import opened LoadPacing
  import opened LoadReport
  import opened LoadReceipt

  /** A true value that may stand behind a value rounded to three places. */
  ghost predicate Behind(x: real, shown: real) {
    x >= 0.0 && shown - 0.0005001 <= x <= shown + 0.0005001
  }

  /** An elapsed time that may stand behind both the elapsed time and the throughput. */
  ghost predicate ElapsedBehind(e: real, r: Report) {
    && Behind(e, r.elapsed)
    && if r.completed == 0 then Behind(0.0, r.throughput)
       else e > 0.0 && Behind((r.completed as real) / e, r.throughput)
  }

  ghost predicate CountsInRange(r: Report, d: Duration) {
    && r.completed <= 10 * d && r.catalog <= 10 * d && r.detail <= 10 * d
    && r.successful <= 10 * d && 0 <= r.errors <= 10 * d && r.http5xx <= 10 * d
    && r.violations <= 10 * d
    && r.participated <= 10 * d && r.participated <= 20
    && r.peak <= 10 * d && r.peak <= 20
  }

  ghost predicate InFloatRange(x: real) {
    0.0 <= x <= 1_000_000_000.0
  }

  ghost predicate NumbersInRange(r: Report) {
    && InFloatRange(r.http5xxRate)
    && InFloatRange(r.p50) && InFloatRange(r.p95) && InFloatRange(r.max)
    && InFloatRange(r.elapsed) && InFloatRange(r.throughput) && InFloatRange(r.minimumThroughput)
    && InFloatRange(r.p95Jitter) && InFloatRange(r.maxJitter) && InFloatRange(r.minimumInterval)
  }

  ghost function ShownRate(r: Report, round: Rounding): real {
    round.six(if r.completed == 0 then 1.0 else (r.http5xx as real) / (r.completed as real))
  }

  /** The numbers that the receipt repeats or that follow from one another. */
  ghost predicate NumbersAgree(r: Report, d: Duration, round: Rounding) {
    && r.catalog + r.detail == r.completed
    && r.successful + r.errors + r.http5xx == r.completed
    && r.http5xxRate == ShownRate(r, round)
    && r.p50 <= r.p95 <= r.max
    && r.p95Jitter <= r.maxJitter
    && Behind((10 * d) as real / (d as real + 3.0), r.minimumThroughput)
    && (r.scheduleMet <==> r.jitterMet && r.noBurstMet)
    && (r.concurrencyMet <==> 1 <= r.peak <= 20)
    && (r.workloadConsistent <==> r.catalog == 7 * d && r.detail == 3 * d)
    && (r.usersMet ==> r.participated == if 10 * d < 20 then 10 * d else 20)
  }

  /** All conditions of the gate but the latency, on the reported numbers. */
  ghost predicate Otherwise(r: Report, d: Duration, round: Rounding) {
    && r.completed == 10 * d && r.catalog == 7 * d && r.detail == 3 * d
    && r.errors == 0 && r.revisionConsistent
    && ShownRate(r, round) < 0.005
    && r.durationMet && r.throughputMet && r.scheduleMet && r.usersMet
    && 1 <= r.peak <= 20
  }

  ghost predicate DurationExplained(r: Report, d: Duration) {
    exists e: real ::
      ElapsedBehind(e, r) && (r.durationMet <==> d as real <= e <= d as real + 3.0)
  }

  ghost predicate ThroughputExplained(r: Report, d: Duration) {
    exists t: real ::
      Behind(t, r.throughput)
      && (r.throughputMet <==> t >= (10 * d) as real / (d as real + 3.0))
  }

  ghost predicate JitterExplained(r: Report) {
    exists j: real :: Behind(j, r.p95Jitter) && (r.jitterMet <==> j <= 100.0)
  }

  ghost predicate BurstExplained(r: Report) {
    exists v: real ::
      Behind(v, r.minimumInterval)
      && (r.noBurstMet <==> r.violations == 0 && v + 0.001 >= 90.0)
  }

  ghost predicate PassExplained(r: Report, d: Duration, round: Rounding) {
    exists p: real ::
      Behind(p, r.p95) && (r.passed <==> Otherwise(r, d, round) && p <= 500.0)
  }

  ghost predicate Explained(r: Report, d: Duration, round: Rounding) {
    && CountsInRange(r, d) && NumbersInRange(r) && NumbersAgree(r, d, round)
    && DurationExplained(r, d) && ThroughputExplained(r, d)
    && JitterExplained(r) && BurstExplained(r) && PassExplained(r, d, round)
  }

  // ---------------------------------------------------------------- interval tests

  lemma BehindIff(x: real, shown: real)
    requires shown >= 0.0
    ensures Behind(x, shown) <==> Lower(shown) <= x <= Upper(shown)
  {
  }

  lemma RateOfTimes(c: real, e: real, t: real)
    requires c > 0.0 && e > 0.0 && t > 0.0
    ensures c / e <= t <==> c / t <= e
  {
    if c / e <= t {
      ThroughputBelow(c, t, e);
    }
    if c / t <= e {
      ThroughputBelow(c, e, t);
    }
  }

  lemma FeasibleIff(r: Report, e: real)
    requires r.elapsed >= 0.0 && r.throughput >= 0.0
    ensures var f := FeasibleElapsed(r);
            ElapsedBehind(e, r) <==> f.Feasible? && f.low <= e <= f.high
  {
    var c := r.completed as real;
    if r.completed > 0 {
      PositiveQuotient(c, Upper(r.throughput));
      if e > 0.0 {
        PositiveQuotient(c, e);
        RateOfTimes(c, e, Upper(r.throughput));
        if Lower(r.throughput) > 0.0 {
          LowerRate(c, e, Lower(r.throughput));
        }
      }
    }
  }

  lemma LowerRate(c: real, e: real, t: real)
    requires c > 0.0 && e > 0.0 && t > 0.0
    ensures t <= c / e <==> e <= c / t
  {
    if t <= c / e {
      ThroughputAbove(c, t, e);
    }
    if e <= c / t {
      ThroughputAbove(c, e, t);
    }
  }

  lemma DurationIff(r: Report, d: Duration)
    requires r.elapsed >= 0.0 && r.throughput >= 0.0
    ensures DurationExplained(r, d)
       <==> FeasibleElapsed(r).Feasible? && DurationPlausible(r, d, FeasibleElapsed(r))
  {
    var f := FeasibleElapsed(r);
    if e: real :| ElapsedBehind(e, r)
                  && (r.durationMet <==> d as real <= e <= d as real + 3.0) {
      FeasibleIff(r, e);
    }
    if f.Feasible? && DurationPlausible(r, d, f) {
      var e := if r.durationMet then Max(f.low, d as real)
               else if f.low < d as real then f.low else f.high;
      FeasibleIff(r, e);
    }
  }

  lemma ThroughputIff(r: Report, d: Duration)
    requires r.throughput >= 0.0
    ensures ThroughputExplained(r, d) <==> ThroughputPlausible(r, d)
  {
    var raw := (10 * d) as real / (d as real + 3.0);
    assert raw == RawMinimumThroughput(d);
    BehindIff(Lower(r.throughput), r.throughput);
    BehindIff(Upper(r.throughput), r.throughput);
  }

  lemma JitterIff(r: Report)
    requires r.p95Jitter >= 0.0
    ensures JitterExplained(r) <==> JitterPlausible(r)
  {
    BehindIff(Lower(r.p95Jitter), r.p95Jitter);
    BehindIff(Upper(r.p95Jitter), r.p95Jitter);
  }

  lemma BurstIff(r: Report)
    requires r.minimumInterval >= 0.0
    ensures BurstExplained(r) <==> BurstPlausible(r)
  {
    BehindIff(Lower(r.minimumInterval), r.minimumInterval);
    BehindIff(Upper(r.minimumInterval), r.minimumInterval);
  }

  lemma OtherwiseIff(r: Report, d: Duration, round: Rounding)
    ensures Otherwise(r, d, round)
       <==> BasePass(r, d, round.six(RateOf(r.http5xx, r.completed)))
  {
    ScheduledBounds(d);
  }

  lemma PassIff(r: Report, d: Duration, round: Rounding)
    requires r.p95 >= 0.0
    ensures PassExplained(r, d, round)
       <==> PassPlausible(r, d, round.six(RateOf(r.http5xx, r.completed)))
  {
    hide Otherwise, BasePass;
    OtherwiseIff(r, d, round);
    BehindIff(Lower(r.p95), r.p95);
    BehindIff(Upper(r.p95), r.p95);
  }

  lemma AgreeIff(r: Report, d: Duration, round: Rounding)
    requires CountsInRange(r, d) && NumbersInRange(r)
    ensures NumbersAgree(r, d, round)
       <==> && Lower(r.minimumThroughput) <= RawMinimumThroughput(d) <= Upper(r.minimumThroughput)
            && CountsAddUp(r)
            && r.http5xxRate == round.six(RateOf(r.http5xx, r.completed))
            && r.p50 <= r.p95 <= r.max
            && r.p95Jitter <= r.maxJitter
            && r.scheduleMet == (r.jitterMet && r.noBurstMet)
            && r.concurrencyMet == (1 <= r.peak <= MAX_CONCURRENCY)
            && r.workloadConsistent == WorkloadMatches(r.catalog, r.detail, d)
            && (r.usersMet ==>
                  r.participated == if Scheduled(d) < LOGICAL_VIRTUAL_USERS then Scheduled(d)
                                    else LOGICAL_VIRTUAL_USERS)
  {
    ScheduledBounds(d);
    BehindIff(RawMinimumThroughput(d), r.minimumThroughput);
  }

  lemma RangesIff(r: Report, d: Duration)
    ensures CountsInRange(r, d) <==> IntegersSane(r, d)
    ensures NumbersInRange(r) <==> FloatsSane(r)
  {
    ScheduledBounds(d);
  }

  /** The validator accepts a receipt exactly when unrounded measurements explain it. */
  lemma ValidatesIffExplained(r: Report, d: Duration, round: Rounding)
    ensures Validates(r, d, round) <==> Explained(r, d, round)
  {
    hide DurationExplained, ThroughputExplained, JitterExplained, BurstExplained, PassExplained,
         NumbersAgree, CountsInRange, DurationPlausible, ThroughputPlausible, JitterPlausible,
         BurstPlausible, PassPlausible, RateOf, RawMinimumThroughput, FeasibleElapsed,
         IntegersSane, CountsAddUp, WorkloadMatches, Lower, Upper;
    RangesIff(r, d);
    if CountsInRange(r, d) && NumbersInRange(r) {
      AgreeIff(r, d, round);
      DurationIff(r, d);
      ThroughputIff(r, d);
      JitterIff(r);
      BurstIff(r);
      PassIff(r, d, round);
    }
  }
}
