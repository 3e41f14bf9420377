/**
 * The database side of the publication channel: the activation insert trigger, the pointer
 * update trigger and the deferred consistency check.
 */
module ChannelSql {
  import opened Common
  import opened ActivationLog

  /** What the insert trigger reads about a target revision. */
  datatype TargetFacts = TargetFacts(found: bool, sealed: bool, approvedAndCurrent: bool)

  /** Which publication channel the row belongs to; the two triggers differ in one clause. */
  datatype Kind = Recent | Historical

  /** BEFORE INSERT on an activation row. */
  predicate InsertGuard(
    kind: Kind, version: int, current: Option<Uuid>, log: seq<Event>,
    capability: Option<Uuid>, e: Event, facts: TargetFacts)
  {
    && capability == Some(e.id)
    && e.sequence == version + 1
    && e.previous == current
    && if e.operation == Withdraw then
         e.target.None? && e.previous.Some?
       else
         && (e.operation == Activate || e.operation == Rollback)
         && e.target.Some?
         && e.target != e.previous
         && facts.found
         && facts.sealed
         && (facts.approvedAndCurrent || (kind == Historical && e.operation == Rollback))
         && (e.operation == Rollback ==>
              exists j :: 0 <= j < |log| && log[j].sequence < e.sequence
                          && (log[j].operation == Activate || log[j].operation == Rollback)
                          && log[j].target == e.target)
  }

  /** BEFORE UPDATE on the channel row. */
  predicate PointerGuard(
    oldVersion: int, oldCurrent: Option<Uuid>, newVersion: int, newCurrent: Option<Uuid>,
    capability: Option<Uuid>, log: seq<Event>)
  {
    && newVersion == oldVersion + 1
    && exists j :: 0 <= j < |log| && capability == Some(log[j].id)
                   && log[j].sequence == newVersion
                   && log[j].previous == oldCurrent
                   && log[j].target == newCurrent
  }

  /** The join condition that makes a row of the history query an offence. */
  predicate BrokenLink(rows: seq<Event>, e: Event) {
    || (e.sequence == 1 && e.previous.Some?)
    || (e.sequence > 1
        && ((forall j :: 0 <= j < |rows| ==> rows[j].sequence != e.sequence - 1)
            || exists j :: 0 <= j < |rows| && rows[j].sequence == e.sequence - 1
                           && e.previous != rows[j].target))
  }

  /** The greatest sequence number, zero for an empty table. */
  function MaxSequence(rows: seq<Event>): (m: int)
    ensures rows == [] ==> m == 0
    ensures rows != [] ==> exists j :: 0 <= j < |rows| && rows[j].sequence == m
    ensures forall j :: 0 <= j < |rows| ==> rows[j].sequence <= m
  {
    if rows == [] then 0
    else if |rows| == 1 then rows[0].sequence
    else
      var rest := MaxSequence(rows[1..]);
      assert forall j :: 1 <= j < |rows| ==> rows[j] == rows[1..][j - 1];
      if rest > rows[0].sequence then rest else rows[0].sequence
  }

  ghost predicate SequencesDistinctPositive(rows: seq<Event>) {
    && (forall i :: 0 <= i < |rows| ==> rows[i].sequence >= 1)
    && (forall i, j :: 0 <= i < |rows| && 0 <= j < |rows| && i != j ==>
          rows[i].sequence != rows[j].sequence)
  }

  /** A channel whose events, put in order, are numbered from one and lead to the pointer. */
  ghost predicate OrderedHistory(
    ordered: seq<Event>, rows: seq<Event>, version: int, current: Option<Uuid>)
  {
    && multiset(ordered) == multiset(rows)
    && Contiguous(ordered)
    && version == |ordered|
    && current == PointerAfter(ordered)
  }

  /**
   * The deferred check, run on the channel's rows in whatever order the table has them.
   * It accepts exactly the states whose rows are one contiguous history ending at the pointer.
   */
  method AssertChannelState(rows: seq<Event>, version: int, current: Option<Uuid>)
    returns (consistent: bool)
    requires SequencesDistinctPositive(rows)
    ensures consistent <==> exists ordered :: OrderedHistory(ordered, rows, version, current)
  {
    var activationCount := |rows|;
    var maximumSequence := MaxSequence(rows);
    if activationCount == 0 {
      consistent := version == 0 && current == None;
      EmptyHistory(rows, version, current);
      return;
    }
    var latest := LatestRow(rows);
    var broken := AnyBrokenLink(rows);
    consistent := version == maximumSequence && maximumSequence == activationCount
                  && current == rows[latest].target && !broken;
    if consistent {
      CheckGivesHistory(rows, version, current, latest);
    }
    if ordered: seq<Event> :| OrderedHistory(ordered, rows, version, current) {
      OrderedHistoryPasses(ordered, rows, version, current, latest);
    }
  }

  /** The row with the greatest sequence. */
  method LatestRow(rows: seq<Event>) returns (latest: nat)
    requires rows != []
    ensures latest < |rows|
    ensures forall j :: 0 <= j < |rows| ==> rows[j].sequence <= rows[latest].sequence
  {
    latest := 0;
    for i := 1 to |rows|
      invariant latest < |rows|
      invariant forall j :: 0 <= j < i ==> rows[j].sequence <= rows[latest].sequence
    {
      if rows[i].sequence > rows[latest].sequence {
        latest := i;
      }
    }
  }

  /** EXISTS over the self join of the activation rows. */
  method AnyBrokenLink(rows: seq<Event>) returns (broken: bool)
    ensures broken <==> exists e :: e in rows && BrokenLink(rows, e)
  {
    broken := false;
    for i := 0 to |rows|
      invariant broken <==> exists e :: e in rows[..i] && BrokenLink(rows, e)
    {
      assert rows[..i + 1] == rows[..i] + [rows[i]];
      if BrokenLink(rows, rows[i]) {
        broken := true;
      }
    }
    assert rows[..|rows|] == rows;
  }

  lemma EmptyHistory(rows: seq<Event>, version: int, current: Option<Uuid>)
    requires rows == []
    ensures (version == 0 && current == None)
       <==> exists ordered :: OrderedHistory(ordered, rows, version, current)
  {
    if version == 0 && current == None {
      assert OrderedHistory([], rows, version, current);
    }
    if ordered: seq<Event> :| OrderedHistory(ordered, rows, version, current) {
      assert |ordered| == |multiset(ordered)| == |multiset(rows)|;
    }
  }

  // ------------------------------------------------- from the check to an ordered history

  ghost predicate Numbered(rows: seq<Event>) {
    SequencesDistinctPositive(rows) && MaxSequence(rows) == |rows|
  }

  lemma EverySequencePresent(rows: seq<Event>, n: int)
    requires Numbered(rows) && 1 <= n <= |rows|
    ensures exists j :: 0 <= j < |rows| && rows[j].sequence == n
  {
    var numbers := seq(|rows|, i requires 0 <= i < |rows| => rows[i].sequence);
    assert Distinct(numbers);
    DistinctFillsRange(numbers);
    assert n in numbers;
  }

  ghost function RowNumbered(rows: seq<Event>, n: int): (e: Event)
    requires Numbered(rows) && 1 <= n <= |rows|
    ensures e in rows && e.sequence == n
  {
    EverySequencePresent(rows, n);
    var j :| 0 <= j < |rows| && rows[j].sequence == n;
    rows[j]
  }

  ghost function Sorted(rows: seq<Event>): seq<Event>
    requires Numbered(rows)
  {
    seq(|rows|, i requires 0 <= i < |rows| => RowNumbered(rows, i + 1))
  }

  lemma {:induction false} DistinctMultiplicity(s: seq<Event>)
    requires Distinct(s)
    ensures forall x :: multiset(s)[x] == if x in s then 1 else 0
  {
    if s != [] {
      var front := s[..|s| - 1];
      DistinctMultiplicity(front);
      assert s == front + [s[|s| - 1]];
    }
  }

  lemma SortedHolds(rows: seq<Event>, e: Event)
    requires Numbered(rows) && e in rows
    ensures 1 <= e.sequence <= |rows| && Sorted(rows)[e.sequence - 1] == e
  {
    var i :| 0 <= i < |rows| && rows[i] == e;
    var found := RowNumbered(rows, e.sequence);
    var j :| 0 <= j < |rows| && rows[j] == found;
  }

  lemma SequencesDistinguish(rows: seq<Event>)
    requires SequencesDistinctPositive(rows)
    ensures Distinct(rows)
  {
    forall i, j | 0 <= i < j < |rows|
      ensures rows[i] != rows[j]
    {
      assert rows[i].sequence != rows[j].sequence;
    }
  }

  lemma SortedRows(rows: seq<Event>)
    requires Numbered(rows)
    ensures multiset(Sorted(rows)) == multiset(rows)
    ensures forall i :: 0 <= i < |rows| ==> Sorted(rows)[i] in rows
    ensures forall i :: 0 <= i < |rows| ==> Sorted(rows)[i].sequence == i + 1
  {
    var ordered := Sorted(rows);
    forall e | e in rows
      ensures e in ordered
    {
      SortedHolds(rows, e);
    }
    assert forall i :: 0 <= i < |rows| ==> ordered[i] in rows && ordered[i].sequence == i + 1;
    SequencesDistinguish(ordered);
    SequencesDistinguish(rows);
    DistinctMultiplicity(ordered);
    DistinctMultiplicity(rows);
    assert forall x :: multiset(ordered)[x] == multiset(rows)[x];
  }

  lemma RowLinksToPredecessor(rows: seq<Event>, before: Event, e: Event)
    requires before in rows && before.sequence == e.sequence - 1 && before.sequence >= 1
    requires !BrokenLink(rows, e)
    ensures e.previous == before.target
  {
    var j :| 0 <= j < |rows| && rows[j] == before;
  }

  lemma FirstRowHasNoPredecessor(rows: seq<Event>, e: Event)
    requires !BrokenLink(rows, e) && e.sequence == 1
    ensures e.previous == None
  {
  }

  lemma SortedIsContiguous(rows: seq<Event>)
    requires Numbered(rows)
    requires forall e :: e in rows ==> !BrokenLink(rows, e)
    ensures Contiguous(Sorted(rows))
  {
    var ordered := Sorted(rows);
    SortedRows(rows);
    forall i | 0 <= i < |ordered|
      ensures EventLinked(ordered, i)
    {
      SortedLink(rows, ordered, i);
    }
  }

  lemma SortedLink(rows: seq<Event>, ordered: seq<Event>, i: nat)
    requires i < |ordered|
    requires forall k :: 0 <= k < |ordered| ==> ordered[k] in rows && ordered[k].sequence == k + 1
    requires !BrokenLink(rows, ordered[i])
    ensures ordered[i].previous == PointerAfter(ordered[..i])
  {
    if i == 0 {
      FirstRowHasNoPredecessor(rows, ordered[0]);
    } else {
      RowLinksToPredecessor(rows, ordered[i - 1], ordered[i]);
      assert ordered[..i][i - 1] == ordered[i - 1];
    }
  }

  lemma CheckGivesHistory(rows: seq<Event>, version: int, current: Option<Uuid>, latest: nat)
    requires Numbered(rows) && latest < |rows| && version == |rows|
    requires forall j :: 0 <= j < |rows| ==> rows[j].sequence <= rows[latest].sequence
    requires current == rows[latest].target
    requires forall e :: e in rows ==> !BrokenLink(rows, e)
    ensures OrderedHistory(Sorted(rows), rows, version, current)
  {
    SortedRows(rows);
    SortedIsContiguous(rows);
    SortedHolds(rows, rows[latest]);
  }

  // ------------------------------------------------- from an ordered history to the check

  lemma OrderedHistoryPasses(
    ordered: seq<Event>, rows: seq<Event>, version: int, current: Option<Uuid>, latest: nat)
    requires SequencesDistinctPositive(rows) && rows != []
    requires OrderedHistory(ordered, rows, version, current)
    requires latest < |rows|
    requires forall j :: 0 <= j < |rows| ==> rows[j].sequence <= rows[latest].sequence
    ensures version == MaxSequence(rows) == |rows|
    ensures current == rows[latest].target
    ensures forall e :: e in rows ==> !BrokenLink(rows, e)
  {
    assert |ordered| == |multiset(ordered)| == |multiset(rows)| == |rows|;
    assert forall e :: e in rows <==> e in multiset(rows);
    assert forall e :: e in ordered <==> e in multiset(ordered);
    var last := ordered[|ordered| - 1];
    assert EventLinked(ordered, |ordered| - 1);
    assert last in rows && last.sequence == |rows|;
    assert forall e :: e in rows ==> e in ordered;
    forall e | e in rows
      ensures e.sequence <= |rows| && !BrokenLink(rows, e)
    {
      OrderedRowIsLinked(ordered, rows, e);
    }
    assert rows[latest] == last;
  }

  lemma OrderedRowIsLinked(ordered: seq<Event>, rows: seq<Event>, e: Event)
    requires SequencesDistinctPositive(rows) && Contiguous(ordered)
    requires multiset(ordered) == multiset(rows)
    requires e in ordered
    ensures e.sequence <= |ordered| && !BrokenLink(rows, e)
  {
    var k :| 0 <= k < |ordered| && ordered[k] == e;
    assert EventLinked(ordered, k);
    if k > 0 {
      var before := ordered[k - 1];
      assert EventLinked(ordered, k - 1);
      assert ordered[..k][k - 1] == before;
      assert before in multiset(ordered) && before in rows;
      forall j | 0 <= j < |rows| && rows[j].sequence == e.sequence - 1
        ensures rows[j] == before
      {
      }
    }
  }
}
