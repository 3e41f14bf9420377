/**
 * The load runner's pacing: ten requests a second against any non-decreasing clock, recovering
 * from stalls by at most ten milliseconds a request. Times are real milliseconds.
 */
module LoadPacing {

  const NOMINAL_INTERVAL := 100.0
  const RECOVERY_FLOOR := 90.0
  const CLOCK_EPSILON := 0.001

  datatype Submission = Submission(paced: real, submitted: real)

  ghost predicate NonDecreasing(readings: seq<real>) {
    forall i, j :: 0 <= i < j < |readings| ==> readings[i] <= readings[j]
  }

  /** The readings that successive calls of the clock return; a run may outlive them. */
  class Clock {
    const readings: seq<real>
    var next: nat

    constructor (readings: seq<real>)
      ensures this.readings == readings && next == 0
    {
      this.readings := readings;
      next := 0;
    }

    method Now() returns (t: real)
      requires next < |readings|
      modifies this
      ensures t == readings[old(next)] && next == old(next) + 1
    {
      t := readings[next];
      next := next + 1;
    }

    /** Reads the clock until the deadline has passed, or until the process is stopped. */
    method SleepUntil(deadline: real) returns (awake: bool)
      requires next <= |readings|
      modifies this
      ensures old(next) <= next <= |readings|
      ensures awake ==> old(next) < next && readings[next - 1] >= deadline
      ensures !awake ==> next == |readings|
      ensures forall i :: old(next) <= i < next - 1 ==> readings[i] < deadline
    {
      while next < |readings|
        invariant old(next) <= next <= |readings|
        invariant forall i :: old(next) <= i < next ==> readings[i] < deadline
        decreases |readings| - next
      {
        var t := Now();
        if deadline - t <= 0.0 {
          return true;
        }
      }
      awake := false;
    }
  }

  function Max(a: real, b: real): real {
    if a >= b then a else b
  }

  function Nominal(start: real, i: nat): real {
    start + (i as real) * NOMINAL_INTERVAL
  }

  /** The deadline of the next request, given when the previous ones were submitted. */
  function Deadline(start: real, log: seq<Submission>): real {
    if log == [] then Nominal(start, 0)
    else Max(Nominal(start, |log|), log[|log| - 1].submitted + RECOVERY_FLOOR)
  }

  /** Each request waited for the deadline that its predecessors set. */
  ghost predicate Paced(start: real, log: seq<Submission>) {
    forall i :: 0 <= i < |log| ==> PacedAt(start, log, i)
  }

  ghost predicate PacedAt(start: real, log: seq<Submission>, i: nat)
    requires i < |log|
  {
    log[i].paced == Deadline(start, log[..i]) && log[i].submitted >= log[i].paced
  }

  /** The gap between each two neighbouring submissions, never counted as negative. */
  function Intervals(log: seq<Submission>): seq<real> {
    seq(if |log| == 0 then 0 else |log| - 1, i requires 0 <= i < |log| - 1 =>
      Max(0.0, log[i + 1].submitted - log[i].submitted))
  }

  lemma PacedOneMore(start: real, log: seq<Submission>, s: Submission)
    requires Paced(start, log) && s.paced == Deadline(start, log) && s.submitted >= s.paced
    ensures Paced(start, log + [s])
  {
    var all := log + [s];
    forall i | 0 <= i < |all|
      ensures PacedAt(start, all, i)
    {
      if i < |log| {
        assert all[..i] == log[..i];
        assert PacedAt(start, log, i);
      } else {
        assert all[..i] == log;
      }
    }
  }

  lemma IntervalsOneMore(log: seq<Submission>, s: Submission)
    requires log != []
    ensures Intervals(log + [s])
         == Intervals(log) + [Max(0.0, s.submitted - log[|log| - 1].submitted)]
  {
  }

  /** The clock was read until a reading reached the deadline, and once more. */
  ghost predicate ReadAfter(
    readings: seq<real>, previous: nat, place: nat, deadline: real, submitted: real)
  {
    && previous + 2 <= place < |readings|
    && submitted == readings[place]
    && readings[place - 1] >= deadline
    && forall j :: previous < j < place - 1 ==> readings[j] < deadline
  }

  /** The i-th submission is a reading taken after the wait that follows the one before it. */
  ghost predicate ReadAt(
    readings: seq<real>, first: nat, log: seq<Submission>, places: seq<nat>, i: nat)
    requires i < |log| == |places|
  {
    ReadAfter(readings, if i == 0 then first else places[i - 1], places[i],
              log[i].paced, log[i].submitted)
  }

  /** Every time in the log was read from the clock, in order. */
  ghost predicate Readings(
    readings: seq<real>, first: nat, start: real, log: seq<Submission>, places: seq<nat>)
  {
    && |places| == |log|
    && first < |readings| && start == readings[first]
    && forall i :: 0 <= i < |log| ==> ReadAt(readings, first, log, places, i)
  }

  ghost function LastPlace(first: nat, places: seq<nat>): nat {
    if places == [] then first else places[|places| - 1]
  }

  lemma ReadingsOneMore(
    readings: seq<real>, first: nat, start: real, log: seq<Submission>, places: seq<nat>,
    s: Submission, place: nat)
    requires Readings(readings, first, start, log, places)
    requires ReadAfter(readings, LastPlace(first, places), place, s.paced, s.submitted)
    ensures Readings(readings, first, start, log + [s], places + [place])
  {
    var all, next := log + [s], places + [place];
    forall i | 0 <= i < |all|
      ensures ReadAt(readings, first, all, next, i)
    {
      if i < |log| {
        assert ReadAt(readings, first, log, places, i);
      }
    }
  }

  /** The submission loop. It is unfinished only when the clock's readings run out. */
  method Submit(clock: Clock, count: nat)
    returns (finished: bool, start: real, log: seq<Submission>, intervals: seq<real>,
             ghost places: seq<nat>)
    requires NonDecreasing(clock.readings) && clock.next < |clock.readings|
    modifies clock
    ensures Paced(start, log) && intervals == Intervals(log)
    ensures Readings(clock.readings, old(clock.next), start, log, places)
    ensures finished ==>
              |log| == count && clock.next == LastPlace(old(clock.next), places) + 1
    ensures !finished ==> clock.next == |clock.readings|
    ensures clock.next <= |clock.readings|
  {
    ghost var first := clock.next;
    start := clock.Now();
    log, intervals, places := [], [], [];
    for i := 0 to count
      invariant clock.next <= |clock.readings| && |log| == i
      invariant clock.next == LastPlace(first, places) + 1
      invariant Paced(start, log) && intervals == Intervals(log)
      invariant Readings(clock.readings, first, start, log, places)
    {
      var nominal := Nominal(start, i);
      var paced := nominal;
      if log != [] {
        paced := Max(nominal, log[|log| - 1].submitted + RECOVERY_FLOOR);
      }
      var awake := clock.SleepUntil(paced);
      if !awake || clock.next == |clock.readings| {
        return false, start, log, intervals, places;
      }
      ghost var place := clock.next;
      var submitted := clock.Now();
      if log != [] {
        IntervalsOneMore(log, Submission(paced, submitted));
        intervals := intervals + [Max(0.0, submitted - log[|log| - 1].submitted)];
      }
      PacedOneMore(start, log, Submission(paced, submitted));
      ReadingsOneMore(clock.readings, first, start, log, places, Submission(paced, submitted),
                      place);
      log, places := log + [Submission(paced, submitted)], places + [place];
    }
    finished := true;
  }

  /** The submissions, the wait for the end of the profile, and the elapsed time. */
  method RunProfile(clock: Clock, duration: real, count: nat)
    returns (finished: bool, start: real, log: seq<Submission>, intervals: seq<real>,
             elapsed: real, ghost places: seq<nat>)
    requires NonDecreasing(clock.readings) && clock.next < |clock.readings|
    modifies clock
    ensures Paced(start, log) && intervals == Intervals(log)
    ensures Readings(clock.readings, old(clock.next), start, log, places)
    ensures finished ==>
              && |log| == count && elapsed >= duration && elapsed >= 0.0
              && 1 <= clock.next <= |clock.readings|
              && ReadAfter(clock.readings, LastPlace(old(clock.next), places), clock.next - 1,
                           start + duration, start + elapsed)
    ensures !finished ==> clock.next == |clock.readings|
  {
    ghost var first := clock.next;
    finished, start, log, intervals, places := Submit(clock, count);
    elapsed := 0.0;
    if !finished {
      return false, start, log, intervals, 0.0, places;
    }
    var awake := clock.SleepUntil(start + duration);
    if !awake || clock.next == |clock.readings| {
      return false, start, log, intervals, 0.0, places;
    }
    PlacesGrow(clock.readings, first, start, log, places);
    var end := clock.Now();
    elapsed := Max(0.0, end - start);
  }

  /** The first reading is before every submission. */
  lemma {:induction false} PlacesGrow(
    readings: seq<real>, first: nat, start: real, log: seq<Submission>, places: seq<nat>)
    requires Readings(readings, first, start, log, places)
    ensures first <= LastPlace(first, places)
  {
    if log != [] {
      var n := |log| - 1;
      assert ReadAt(readings, first, log, places, n);
      forall i | 0 <= i < n
        ensures ReadAt(readings, first, log[..n], places[..n], i)
      {
        assert ReadAt(readings, first, log, places, i);
      }
      PlacesGrow(readings, first, start, log[..n], places[..n]);
    }
  }

  // ---------------------------------------------------------------- what pacing guarantees

  lemma PacedFacts(start: real, log: seq<Submission>, i: nat)
    requires Paced(start, log) && i < |log|
    ensures log[i].submitted >= log[i].paced
    ensures i == 0 ==> log[i].paced == Nominal(start, 0)
    ensures i > 0 ==>
              log[i].paced == Max(Nominal(start, i), log[i - 1].submitted + RECOVERY_FLOOR)
  {
    assert PacedAt(start, log, i);
    if i > 0 {
      assert log[..i][i - 1] == log[i - 1];
    }
  }

  /** No request is submitted before its nominal time. */
  lemma NeverEarly(start: real, log: seq<Submission>, i: nat)
    requires Paced(start, log) && i < |log|
    ensures log[i].submitted >= Nominal(start, i)
  {
    PacedFacts(start, log, i);
  }

  /** Two submissions are never closer than the recovery floor. */
  lemma FloorHolds(start: real, log: seq<Submission>, i: nat)
    requires Paced(start, log) && 0 < i < |log|
    ensures log[i].submitted - log[i - 1].submitted >= RECOVERY_FLOOR
  {
    PacedFacts(start, log, i);
  }

  function Violations(intervals: seq<real>): nat {
    if intervals == [] then 0
    else
      Violations(intervals[..|intervals| - 1])
      + (if intervals[|intervals| - 1] + CLOCK_EPSILON < RECOVERY_FLOOR then 1 else 0)
  }

  /** The places of the intervals that are more than the clock's slack below 90 ms. */
  ghost function ShortIntervals(intervals: seq<real>): set<int> {
    set i | 0 <= i < |intervals| && intervals[i] + 0.001 < 90.0
  }

  lemma {:induction false} ViolationsAreShort(intervals: seq<real>)
    ensures Violations(intervals) == |ShortIntervals(intervals)|
  {
    if intervals != [] {
      var last := |intervals| - 1;
      ViolationsAreShort(intervals[..last]);
      if intervals[last] + 0.001 < 90.0 {
        assert ShortIntervals(intervals) == ShortIntervals(intervals[..last]) + {last};
      } else {
        assert ShortIntervals(intervals) == ShortIntervals(intervals[..last]);
      }
    }
  }

  lemma {:induction false} NoneBelowFloor(intervals: seq<real>)
    requires forall i :: 0 <= i < |intervals| ==> intervals[i] >= RECOVERY_FLOOR
    ensures Violations(intervals) == 0
  {
    if intervals != [] {
      NoneBelowFloor(intervals[..|intervals| - 1]);
    }
  }

  /** A paced run has no burst violation, whatever the clock and the sleeper do. */
  lemma PacedHasNoBurst(start: real, log: seq<Submission>)
    requires Paced(start, log)
    ensures Violations(Intervals(log)) == 0
    ensures forall i :: 0 <= i < |Intervals(log)| ==> Intervals(log)[i] >= RECOVERY_FLOOR
  {
    var intervals := Intervals(log);
    forall i | 0 <= i < |intervals|
      ensures intervals[i] >= RECOVERY_FLOOR
    {
      FloorHolds(start, log, i + 1);
    }
    NoneBelowFloor(intervals);
  }

  // ---------------------------------------------------------------- the queueing recursion

  /** How long after its deadline a request was really submitted. */
  function Oversleep(log: seq<Submission>, i: nat): real
    requires i < |log|
  {
    log[i].submitted - log[i].paced
  }

  function Lateness(start: real, log: seq<Submission>, i: nat): real
    requires i < |log|
  {
    log[i].submitted - Nominal(start, i)
  }

  /** Each request works off ten milliseconds of lateness and adds its own oversleep. */
  lemma LatenessRecurrence(start: real, log: seq<Submission>, i: nat)
    requires Paced(start, log) && i < |log|
    ensures Oversleep(log, i) >= 0.0
    ensures i == 0 ==> Lateness(start, log, 0) == Oversleep(log, 0)
    ensures i > 0 ==>
              Lateness(start, log, i)
              == Max(0.0, Lateness(start, log, i - 1) - (NOMINAL_INTERVAL - RECOVERY_FLOOR))
                 + Oversleep(log, i)
  {
    PacedFacts(start, log, i);
    if i > 0 {
      assert Nominal(start, i) == Nominal(start, i - 1) + NOMINAL_INTERVAL;
    }
  }

  /** The oversleeps from k to n, less what the requests after k can work off. */
  function Backlog(log: seq<Submission>, k: nat, n: nat): real
    requires k <= n < |log|
    decreases n
  {
    if k == n then Oversleep(log, n)
    else Backlog(log, k, n - 1) - (NOMINAL_INTERVAL - RECOVERY_FLOOR) + Oversleep(log, n)
  }

  /** Closed form: the lateness is the worst backlog that starts at any earlier request. */
  lemma {:induction false} LatenessIsWorstBacklog(start: real, log: seq<Submission>, n: nat)
    requires Paced(start, log) && n < |log|
    ensures forall k: nat :: k <= n ==> Backlog(log, k, n) <= Lateness(start, log, n)
    ensures exists k: nat :: k <= n && Backlog(log, k, n) == Lateness(start, log, n)
  {
    LatenessRecurrence(start, log, n);
    if n == 0 {
      assert Backlog(log, 0, 0) == Lateness(start, log, 0);
    } else {
      LatenessIsWorstBacklog(start, log, n - 1);
      forall k: nat | k <= n
        ensures Backlog(log, k, n) <= Lateness(start, log, n)
      {
        if k < n {
          assert Backlog(log, k, n - 1) <= Lateness(start, log, n - 1);
        }
      }
      if Lateness(start, log, n - 1) - (NOMINAL_INTERVAL - RECOVERY_FLOOR) > 0.0 {
        var k: nat :| k <= n - 1 && Backlog(log, k, n - 1) == Lateness(start, log, n - 1);
        assert Backlog(log, k, n) == Lateness(start, log, n);
      } else {
        assert Backlog(log, n, n) == Lateness(start, log, n);
      }
    }
  }
}
