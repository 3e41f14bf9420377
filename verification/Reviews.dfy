/**
 * Append-only review decisions. A decision either opens a generation or supersedes an
 * earlier decision of the same generation; the recent and the historical services share
 * these rules, with a parsed generation or a source collection in the role of Generation.
 */
module Reviews {
  import opened Common

  datatype Verdict = Approve | Reject

  datatype Generation = Generation(configuration: Uuid, artifact: Uuid, parseRun: Uuid)

  /** `evidence` stands for who decided, hashes, reason code and approved coverage. */
  datatype Decision = Decision(
    id: Uuid,
    generation: Generation,
    verdict: Verdict,
    evidence: string,
    supersedes: Option<Uuid>)

  datatype RecordOutcome = Recorded | Replayed | Conflict | Refused

  function Lookup(rows: seq<Decision>, id: Uuid): (found: Option<Decision>)
    ensures found.Some? ==> found.value in rows && found.value.id == id
    ensures found.None? ==> forall d :: d in rows ==> d.id != id
  {
    if rows == [] then None
    else if rows[0].id == id then Some(rows[0])
    else Lookup(rows[1..], id)
  }

  predicate IsSuperseded(rows: seq<Decision>, id: Uuid) {
    exists i :: 0 <= i < |rows| && rows[i].supersedes == Some(id)
  }

  predicate HasRoot(rows: seq<Decision>, generation: Generation) {
    exists i :: 0 <= i < |rows| && rows[i].generation == generation && rows[i].supersedes == None
  }

  /** Whether the supersede rules admit a new decision. */
  predicate LinkAllowed(rows: seq<Decision>, candidate: Decision) {
    match candidate.supersedes
    case None => !HasRoot(rows, candidate.generation)
    case Some(previous) =>
      var found := Lookup(rows, previous);
      && found.Some?
      && found.value.id != candidate.id
      && found.value.generation == candidate.generation
      && !IsSuperseded(rows, previous)
  }

  /** `admissible` is the verdict of the source, fetch and parse guards. */
  function Decide(rows: seq<Decision>, candidate: Decision, admissible: bool): RecordOutcome {
    var existing := Lookup(rows, candidate.id);
    if existing.Some? then
      if existing.value == candidate then Replayed else Conflict
    else if admissible && LinkAllowed(rows, candidate) then Recorded
    else Refused
  }

  function Record(rows: seq<Decision>, candidate: Decision, admissible: bool): seq<Decision> {
    if Decide(rows, candidate, admissible) == Recorded then rows + [candidate] else rows
  }

  /** The stored ledger and its one service operation. */
  class Ledger {
    var rows: seq<Decision>

    constructor ()
      ensures rows == []
    {
      rows := [];
    }

    method RecordDecision(candidate: Decision, admissible: bool) returns (outcome: RecordOutcome)
      modifies this
      ensures outcome == Decide(old(rows), candidate, admissible)
      ensures rows == Record(old(rows), candidate, admissible)
      ensures outcome != Recorded ==> rows == old(rows)
    {
      var existing := Lookup(rows, candidate.id);
      if existing.Some? {
        return if existing.value == candidate then Replayed else Conflict;
      }
      if !admissible {
        return Refused;
      }
      if candidate.supersedes.Some? {
        var superseded := Lookup(rows, candidate.supersedes.value);
        if superseded.None? || superseded.value.id == candidate.id {
          return Refused;
        }
        if superseded.value.generation != candidate.generation {
          return Refused;
        }
        if IsSuperseded(rows, superseded.value.id) {
          return Refused;
        }
      } else if HasRoot(rows, candidate.generation) {
        return Refused;
      }
      rows := rows + [candidate];
      outcome := Recorded;
    }
  }

  // ---------------------------------------------------------------- the chain invariant

  function OfGeneration(rows: seq<Decision>, generation: Generation): seq<Decision> {
    if rows == [] then []
    else
      var last := rows[|rows| - 1];
      OfGeneration(rows[..|rows| - 1], generation)
      + (if last.generation == generation then [last] else [])
  }

  /** One root, and every later decision supersedes exactly the one before it. */
  ghost predicate Chain(ds: seq<Decision>) {
    && (ds != [] ==> ds[0].supersedes == None)
    && forall i, j :: 0 <= i && j == i + 1 < |ds| ==> ds[j].supersedes == Some(ds[i].id)
  }

  ghost predicate DistinctIds(rows: seq<Decision>) {
    forall i, j :: 0 <= i < |rows| && 0 <= j < |rows| && i != j ==> rows[i].id != rows[j].id
  }

  ghost predicate LinkedEarlier(rows: seq<Decision>, i: nat)
    requires i < |rows|
  {
    rows[i].supersedes.Some? ==>
      exists j :: 0 <= j < i && rows[j].id == rows[i].supersedes.value
                  && rows[j].generation == rows[i].generation
  }

  /** Every supersede link points at an earlier row of the same generation. */
  ghost predicate LinksBackward(rows: seq<Decision>) {
    forall i :: 0 <= i < |rows| ==> LinkedEarlier(rows, i)
  }

  ghost predicate Linear(rows: seq<Decision>) {
    && DistinctIds(rows)
    && LinksBackward(rows)
    && forall g :: Chain(OfGeneration(rows, g))
  }

  lemma {:induction false} OfGenerationMembers(rows: seq<Decision>, g: Generation)
    ensures forall d :: d in OfGeneration(rows, g) <==> d in rows && d.generation == g
  {
    if rows != [] {
      var front := rows[..|rows| - 1];
      OfGenerationMembers(front, g);
      assert rows == front + [rows[|rows| - 1]];
    }
  }

  lemma {:induction false} OfGenerationDistinct(rows: seq<Decision>, g: Generation)
    requires DistinctIds(rows)
    ensures DistinctIds(OfGeneration(rows, g))
  {
    if rows != [] {
      var front := rows[..|rows| - 1];
      OfGenerationDistinct(front, g);
      OfGenerationMembers(front, g);
      var filtered := OfGeneration(front, g);
      forall i | 0 <= i < |filtered|
        ensures filtered[i].id != rows[|rows| - 1].id
      {
        assert filtered[i] in front;
      }
    }
  }

  lemma OfGenerationAppend(rows: seq<Decision>, d: Decision, g: Generation)
    ensures OfGeneration(rows + [d], g)
         == OfGeneration(rows, g) + (if d.generation == g then [d] else [])
  {
    assert (rows + [d])[..|rows|] == rows;
  }

  lemma SupersededMember(rows: seq<Decision>, d: Decision, id: Uuid)
    requires d in rows && d.supersedes == Some(id)
    ensures IsSuperseded(rows, id)
  {
    var i :| 0 <= i < |rows| && rows[i] == d;
  }

  lemma SupersededInChain(ds: seq<Decision>, i: nat)
    requires Chain(ds) && DistinctIds(ds) && i < |ds|
    ensures IsSuperseded(ds, ds[i].id) <==> i + 1 < |ds|
  {
    if i + 1 < |ds| {
      assert ds[i + 1].supersedes == Some(ds[i].id);
    }
    if IsSuperseded(ds, ds[i].id) {
      var k :| 0 <= k < |ds| && ds[k].supersedes == Some(ds[i].id);
      assert ds[k].supersedes == Some(ds[k - 1].id);
    }
  }

  lemma SupersederSharesGeneration(rows: seq<Decision>, d: Decision, k: nat)
    requires Linear(rows) && d in rows && k < |rows| && rows[k].supersedes == Some(d.id)
    ensures rows[k].generation == d.generation
  {
    var i :| 0 <= i < |rows| && rows[i] == d;
    assert LinkedEarlier(rows, k);
    var j :| 0 <= j < k && rows[j].id == d.id && rows[j].generation == rows[k].generation;
    assert i == j;
  }

  /** Superseded anywhere in the ledger means superseded within the generation. */
  lemma SupersededWithinGeneration(rows: seq<Decision>, d: Decision)
    requires Linear(rows) && d in rows
    ensures IsSuperseded(rows, d.id) <==> IsSuperseded(OfGeneration(rows, d.generation), d.id)
  {
    var ds := OfGeneration(rows, d.generation);
    OfGenerationMembers(rows, d.generation);
    if IsSuperseded(rows, d.id) {
      var k :| 0 <= k < |rows| && rows[k].supersedes == Some(d.id);
      SupersederSharesGeneration(rows, d, k);
      assert rows[k] in ds;
      SupersededMember(ds, rows[k], d.id);
    }
    if IsSuperseded(ds, d.id) {
      var k :| 0 <= k < |ds| && ds[k].supersedes == Some(d.id);
      assert ds[k] in ds;
      SupersededMember(rows, ds[k], d.id);
    }
  }

  lemma LatestIffNotSuperseded(rows: seq<Decision>, d: Decision)
    requires Linear(rows) && d in rows
    ensures var ds := OfGeneration(rows, d.generation);
            ds != [] && (!IsSuperseded(rows, d.id) <==> ds[|ds| - 1] == d)
  {
    var ds := OfGeneration(rows, d.generation);
    OfGenerationMembers(rows, d.generation);
    OfGenerationDistinct(rows, d.generation);
    assert d in ds;
    var i :| 0 <= i < |ds| && ds[i] == d;
    SupersededInChain(ds, i);
    SupersededWithinGeneration(rows, d);
  }

  lemma RootIffNonempty(rows: seq<Decision>, g: Generation)
    requires Linear(rows)
    ensures HasRoot(rows, g) <==> OfGeneration(rows, g) != []
  {
    var ds := OfGeneration(rows, g);
    OfGenerationMembers(rows, g);
    if ds != [] {
      assert ds[0] in ds;
      var i :| 0 <= i < |rows| && rows[i] == ds[0];
    }
    if HasRoot(rows, g) {
      var i :| 0 <= i < |rows| && rows[i].generation == g && rows[i].supersedes == None;
      assert rows[i] in ds;
    }
  }

  /** A decision that the link rules admit can only extend the chain at its tail. */
  lemma LinkExtendsTail(rows: seq<Decision>, candidate: Decision)
    requires Linear(rows) && LinkAllowed(rows, candidate)
    ensures var ds := OfGeneration(rows, candidate.generation);
            candidate.supersedes == if ds == [] then None else Some(ds[|ds| - 1].id)
  {
    RootIffNonempty(rows, candidate.generation);
    if candidate.supersedes.Some? {
      var previous := Lookup(rows, candidate.supersedes.value).value;
      LatestIffNotSuperseded(rows, previous);
    }
  }

  lemma LinksAfterRecord(rows: seq<Decision>, candidate: Decision)
    requires LinksBackward(rows) && LinkAllowed(rows, candidate)
    ensures LinksBackward(rows + [candidate])
  {
    var after := rows + [candidate];
    forall i | 0 <= i < |after|
      ensures LinkedEarlier(after, i)
    {
      if i < |rows| {
        assert LinkedEarlier(rows, i);
        if rows[i].supersedes.Some? {
          var j :| 0 <= j < i && rows[j].id == rows[i].supersedes.value
                   && rows[j].generation == rows[i].generation;
          assert after[j] == rows[j];
        }
      } else if candidate.supersedes.Some? {
        var previous := Lookup(rows, candidate.supersedes.value).value;
        var j :| 0 <= j < |rows| && rows[j] == previous;
        assert after[j] == previous;
      }
    }
  }

  lemma RecordKeepsLinear(rows: seq<Decision>, candidate: Decision, admissible: bool)
    requires Linear(rows)
    ensures Linear(Record(rows, candidate, admissible))
  {
    if Decide(rows, candidate, admissible) == Recorded {
      var after := rows + [candidate];
      LinkExtendsTail(rows, candidate);
      forall g
        ensures Chain(OfGeneration(after, g))
      {
        OfGenerationAppend(rows, candidate, g);
        assert Chain(OfGeneration(rows, g));
      }
      LinksAfterRecord(rows, candidate);
      forall d | d in rows
        ensures d.id != candidate.id
      {
      }
      assert DistinctIds(after);
    }
  }

  /** A decision that opens a generation, or supersedes the one nobody superseded yet. */
  ghost predicate ExtendsTail(rows: seq<Decision>, candidate: Decision) {
    match candidate.supersedes
    case None => forall d :: d in rows ==> d.generation != candidate.generation
    case Some(previous) =>
      exists d :: && d in rows
                  && d.id == previous && d.generation == candidate.generation
                  && forall e :: e in rows ==> e.supersedes != Some(previous)
  }

  lemma SupersededIff(rows: seq<Decision>, id: Uuid)
    ensures IsSuperseded(rows, id) <==> exists e :: e in rows && e.supersedes == Some(id)
  {
    if e :| e in rows && e.supersedes == Some(id) {
      SupersededMember(rows, e, id);
    }
  }

  lemma RootedGeneration(rows: seq<Decision>, g: Generation)
    requires Linear(rows)
    ensures HasRoot(rows, g) <==> exists d :: d in rows && d.generation == g
  {
    RootIffNonempty(rows, g);
    OfGenerationMembers(rows, g);
    if d :| d in rows && d.generation == g {
      assert d in OfGeneration(rows, g);
    }
    if OfGeneration(rows, g) != [] {
      assert OfGeneration(rows, g)[0] in OfGeneration(rows, g);
    }
  }

  lemma LinkAllowedIff(rows: seq<Decision>, candidate: Decision)
    requires Linear(rows) && forall d :: d in rows ==> d.id != candidate.id
    ensures LinkAllowed(rows, candidate) <==> ExtendsTail(rows, candidate)
  {
    match candidate.supersedes
    case None => RootedGeneration(rows, candidate.generation);
    case Some(previous) =>
      SupersededIff(rows, previous);
      if d :| d in rows && d.id == previous {
        OneRowPerId(rows, d);
      }
  }

  lemma OneRowPerId(rows: seq<Decision>, d: Decision)
    requires DistinctIds(rows) && d in rows
    ensures Lookup(rows, d.id) == Some(d)
    ensures forall e :: e in rows && e.id == d.id ==> e == d
  {
    var i :| 0 <= i < |rows| && rows[i] == d;
    forall e | e in rows && e.id == d.id
      ensures e == d
    {
      var j :| 0 <= j < |rows| && rows[j] == e;
      assert i == j;
    }
  }

  /**
   * The whole answer of the review service: the same decision again is a replay, another one
   * under its ID a conflict, and a fresh one is recorded exactly when its guards hold and it
   * extends the tail of its generation, whatever the verdict of that tail.
   */
  lemma DecisionOutcomes(rows: seq<Decision>, candidate: Decision, admissible: bool)
    requires Linear(rows)
    ensures var outcome := Decide(rows, candidate, admissible);
            && (outcome == Replayed <==> candidate in rows)
            && (outcome == Conflict
                <==> candidate !in rows && exists d :: d in rows && d.id == candidate.id)
            && (outcome == Recorded
                <==> && (forall d :: d in rows ==> d.id != candidate.id)
                     && admissible && ExtendsTail(rows, candidate))
  {
    if candidate in rows {
      OneRowPerId(rows, candidate);
    }
    if d :| d in rows && d.id == candidate.id {
      OneRowPerId(rows, d);
    } else {
      LinkAllowedIff(rows, candidate);
    }
  }

  /** A ledger after any sequence of requests, starting empty. */
  function Play(requests: seq<(Decision, bool)>): seq<Decision> {
    if requests == [] then []
    else
      var last := requests[|requests| - 1];
      Record(Play(requests[..|requests| - 1]), last.0, last.1)
  }

  lemma {:induction false} EveryLedgerIsLinear(requests: seq<(Decision, bool)>)
    ensures Linear(Play(requests))
  {
    if requests == [] {
      assert forall g :: OfGeneration([], g) == [];
    } else {
      var front := requests[..|requests| - 1];
      var last := requests[|requests| - 1];
      EveryLedgerIsLinear(front);
      RecordKeepsLinear(Play(front), last.0, last.1);
    }
  }

  /** The next request adds its own decision, if it is fresh and admitted, and no other row. */
  lemma NextRequestAddsItsDecision(
    requests: seq<(Decision, bool)>, candidate: Decision, admissible: bool)
    ensures var rows, after := Play(requests), Play(requests + [(candidate, admissible)]);
            && (forall d :: d in rows ==> d in after)
            && (forall d :: d in after ==> d in rows || d == candidate)
            && (candidate in after
                <==> || candidate in rows
                     || ((forall d :: d in rows ==> d.id != candidate.id)
                         && admissible && ExtendsTail(rows, candidate)))
  {
    hide ExtendsTail;
    var all := requests + [(candidate, admissible)];
    assert all[..|requests|] == requests && all[|requests|] == (candidate, admissible);
    EveryLedgerIsLinear(requests);
    DecisionOutcomes(Play(requests), candidate, admissible);
    assert Play(all) == Record(Play(requests), candidate, admissible);
  }

  // ---------------------------------------------------------------- the tail scan

  /** The sealing service's scan: members that no member supersedes. */
  function TailsAmong(candidates: seq<Decision>, all: seq<Decision>): seq<Decision> {
    if candidates == [] then []
    else
      (if IsSuperseded(all, candidates[0].id) then [] else [candidates[0]])
      + TailsAmong(candidates[1..], all)
  }

  function Tails(ds: seq<Decision>): seq<Decision> {
    TailsAmong(ds, ds)
  }

  lemma {:induction false} TailsOfSuffix(ds: seq<Decision>, from: nat)
    requires Chain(ds) && DistinctIds(ds) && from < |ds|
    ensures TailsAmong(ds[from..], ds) == [ds[|ds| - 1]]
    decreases |ds| - from
  {
    SupersededInChain(ds, from);
    assert ds[from..][0] == ds[from] && ds[from..][1..] == ds[from + 1..];
    if from + 1 < |ds| {
      TailsOfSuffix(ds, from + 1);
    } else {
      assert ds[from + 1..] == [];
    }
  }

  /** In every reachable ledger the scan returns exactly the last recorded decision. */
  lemma TailScanFindsLatest(requests: seq<(Decision, bool)>, g: Generation)
    ensures var ds := OfGeneration(Play(requests), g);
            Tails(ds) == if ds == [] then [] else [ds[|ds| - 1]]
  {
    var rows := Play(requests);
    EveryLedgerIsLinear(requests);
    OfGenerationDistinct(rows, g);
    if OfGeneration(rows, g) != [] {
      var ds := OfGeneration(rows, g);
      TailsOfSuffix(ds, 0);
      assert ds[0..] == ds;
    }
  }

  /** The one-row existence test used at activation time agrees with the tail scan. */
  lemma NotSupersededIffLatest(rows: seq<Decision>, d: Decision)
    requires Linear(rows) && d in rows
    ensures !IsSuperseded(rows, d.id) <==> Tails(OfGeneration(rows, d.generation)) == [d]
  {
    var ds := OfGeneration(rows, d.generation);
    LatestIffNotSuperseded(rows, d);
    OfGenerationDistinct(rows, d.generation);
    TailsOfSuffix(ds, 0);
    assert ds[0..] == ds;
  }

  /** Supersession is permanent. */
  lemma SupersededForever(rows: seq<Decision>, candidate: Decision, admissible: bool, id: Uuid)
    ensures IsSuperseded(rows, id) ==> IsSuperseded(Record(rows, candidate, admissible), id)
    ensures forall d :: d in rows ==> d in Record(rows, candidate, admissible)
  {
    if IsSuperseded(rows, id) {
      var i :| 0 <= i < |rows| && rows[i].supersedes == Some(id);
      assert Record(rows, candidate, admissible)[i] == rows[i];
    }
  }
}
