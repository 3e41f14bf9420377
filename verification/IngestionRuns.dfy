/**
 * Any sequence of interrupted runs of one collection ID, against a source that answers each
 * partition the same way every time, is equivalent to one uninterrupted run.
 */
module IngestionRuns {
  import opened Common
  import opened Ingestion

  // ---------------------------------------------------------------- the canonical contents

  function PartOf(r: Request, k: nat): Part {
    Part(ScopeOf(r, k), ArtifactOf(r, k), |RowsOf(r, k).facts|)
  }

  function PartsTo(r: Request, p: nat): map<nat, Part> {
    if p == 0 then map[] else PartsTo(r, p - 1)[p := PartOf(r, p)]
  }

  /** The rows of the first p partitions, in order. */
  function FactsTo(r: Request, p: nat): seq<StoredFact> {
    if p == 0 then [] else FactsTo(r, p - 1) + Tagged(p, RowsOf(r, p).facts)
  }

  function RunOf(id: Uuid, r: Request, k: nat): ParseRun {
    ParseRun(true, RowsOf(r, k).hash, |RowsOf(r, k).facts|, Some(PartRef(id, k)))
  }

  /** The parse runs of other collections and of the first p partitions. */
  function RunsTo(id: Uuid, r: Request, foreign: map<Artifact, ParseRun>, p: nat)
    : map<Artifact, ParseRun>
  {
    if p == 0 then foreign else RunsTo(id, r, foreign, p - 1)[ArtifactOf(r, p) := RunOf(id, r, p)]
  }

  function ResultsTo(r: Request, p: nat): seq<ResultPart> {
    if p == 0 then []
    else
      ResultsTo(r, p - 1)
      + [ResultPart(p, ScopeOf(r, p), RowsOf(r, p).hash, |RowsOf(r, p).facts|)]
  }

  /** The collection that a complete ingestion leaves. */
  function Final(r: Request): Collection {
    var n := |r.plan.scopes|;
    Collection(r.plan, Validated, |FactsTo(r, n)|, ResultsTo(r, n))
  }

  /** What the source's answer to partition k must be for its part to be stored. */
  ghost predicate Acceptable(r: Request, foreign: map<Artifact, ParseRun>, k: nat) {
    && k >= 1
    && ResponseTo(r, k).Fetched? && ResponseTo(r, k).parsed.Some?
    && RowsOf(r, k).inputCount == |RowsOf(r, k).facts|
    && RowsOf(r, k).inScope && RowsOf(r, k).resolved
    && ArtifactOf(r, k) !in foreign
    && KeysFree(FactsTo(r, k - 1), k, RowsOf(r, k).facts)
  }

  ghost predicate AllAcceptable(r: Request, foreign: map<Artifact, ParseRun>) {
    forall k: nat :: 1 <= k <= |r.plan.scopes| ==> Acceptable(r, foreign, k)
  }

  // ---------------------------------------------------------------- the invariant

  ghost predicate Numbered(attempts: seq<Attempt>) {
    forall i :: 0 <= i < |attempts| ==> attempts[i].ordinal == i + 1
  }

  /** No other collection's parse run points at this one. */
  ghost predicate Foreign(id: Uuid, foreign: map<Artifact, ParseRun>) {
    forall a :: a in foreign && foreign[a].part.Some? ==> foreign[a].part.value.collection != id
  }

  ghost predicate PartDone(s: Store, r: Request, foreign: map<Artifact, ParseRun>, k: nat) {
    Acceptable(r, foreign, k) && HasSource(s, ArtifactOf(r, k), ScopeOf(r, k))
  }

  /** The tables hold exactly the first p partitions. */
  ghost predicate Filled(s: Store, r: Request, foreign: map<Artifact, ParseRun>, p: nat) {
    && p <= |r.plan.scopes|
    && s.parts == PartsTo(r, p)
    && s.facts == FactsTo(r, p)
    && s.runs == RunsTo(s.id, r, foreign, p)
    && forall k: nat :: 1 <= k <= p ==> PartDone(s, r, foreign, k)
  }

  ghost predicate Stage(c: Collection, r: Request, p: nat) {
    c == Collection(r.plan, Open, 0, []) || (p == |r.plan.scopes| && c == Final(r))
  }

  ghost predicate Progress(s: Store, r: Request, foreign: map<Artifact, ParseRun>, p: nat) {
    && PlanValid(r) && Foreign(s.id, foreign)
    && Numbered(s.attempts)
    && s.collection.Some? && Stage(s.collection.value, r, p)
    && Filled(s, r, foreign, p)
  }

  ghost predicate Fresh(s: Store, foreign: map<Artifact, ParseRun>) {
    Foreign(s.id, foreign) && s == Store(s.id, None, [], foreign, map[], [])
  }

  ghost predicate Inv(s: Store, r: Request, foreign: map<Artifact, ParseRun>) {
    Fresh(s, foreign) || exists p :: Progress(s, r, foreign, p)
  }

  // ---------------------------------------------------------------- counting

  lemma {:induction false} CountAppend(a: seq<StoredFact>, b: seq<StoredFact>, part: nat)
    ensures CountOf(a + b, part) == CountOf(a, part) + CountOf(b, part)
  {
    if b == [] {
      assert a + b == a;
    } else {
      CountAppend(a, b[..|b| - 1], part);
      assert (a + b)[..|a + b| - 1] == a + b[..|b| - 1];
    }
  }

  lemma {:induction false} CountTagged(p: nat, facts: seq<Fact>, part: nat)
    ensures CountOf(Tagged(p, facts), part) == if p == part then |facts| else 0
  {
    if facts != [] {
      CountTagged(p, facts[..|facts| - 1], part);
      assert Tagged(p, facts)[..|facts| - 1] == Tagged(p, facts[..|facts| - 1]);
    }
  }

  /** Every part of the first p has its own rows, and no other part has any. */
  lemma {:induction false} CountFactsTo(r: Request, p: nat, k: nat)
    requires k >= 1
    ensures CountOf(FactsTo(r, p), k) == if k <= p then |RowsOf(r, k).facts| else 0
  {
    if p > 0 {
      CountFactsTo(r, p - 1, k);
      CountTagged(p, RowsOf(r, p).facts, k);
      CountAppend(FactsTo(r, p - 1), Tagged(p, RowsOf(r, p).facts), k);
    }
  }

  /** Row conservation: the parts' counts add up to the number of rows. */
  lemma {:induction false} AcceptedIsTotal(r: Request, p: nat, n: nat)
    requires p <= n
    ensures AcceptedTo(FactsTo(r, n), p) == |FactsTo(r, p)|
  {
    if p > 0 {
      AcceptedIsTotal(r, p - 1, n);
      CountFactsTo(r, n, p);
    }
  }

  // ---------------------------------------------------------------- planning

  /** A plan of one to a hundred different scopes is accepted unless the ID has another one. */
  lemma PlanAcceptedIff(s: Store, r: Request)
    requires |r.responses| == |r.plan.scopes|
    ensures PlanCollection(s, r).Some?
       <==> && r.admissible
            && 1 <= |r.plan.scopes| <= 100
            && (forall i, j :: 0 <= i < |r.plan.scopes| && 0 <= j < |r.plan.scopes| && i != j ==>
                  r.plan.scopes[i] != r.plan.scopes[j])
            && (s.collection.Some? ==> s.collection.value.plan == r.plan)
    ensures PlanCollection(s, r).Some? ==>
              PlanCollection(s, r).value
              == if s.collection.Some? then s
                 else Store(s.id, Some(Collection(r.plan, Open, 0, [])), s.attempts, s.runs,
                            s.parts, s.facts)
  {
  }

  // ---------------------------------------------------------------- parse runs

  lemma ArtifactsDiffer(r: Request, j: nat, k: nat)
    requires PlanValid(r) && 1 <= j < k <= |r.plan.scopes|
    ensures ArtifactOf(r, j) != ArtifactOf(r, k)
  {
    assert r.plan.scopes[j - 1] != r.plan.scopes[k - 1];
  }

  /** The run of a stored partition is found; the artifact of a later one is free. */
  lemma {:induction false} RunsToAt(
    id: Uuid, r: Request, foreign: map<Artifact, ParseRun>, p: nat, k: nat)
    requires PlanValid(r) && p <= |r.plan.scopes| && 1 <= k <= |r.plan.scopes|
    ensures k <= p ==> ArtifactOf(r, k) in RunsTo(id, r, foreign, p)
                       && RunsTo(id, r, foreign, p)[ArtifactOf(r, k)] == RunOf(id, r, k)
    ensures k > p ==>
              (ArtifactOf(r, k) in RunsTo(id, r, foreign, p) <==> ArtifactOf(r, k) in foreign)
    ensures k > p && ArtifactOf(r, k) in foreign ==>
              RunsTo(id, r, foreign, p)[ArtifactOf(r, k)] == foreign[ArtifactOf(r, k)]
  {
    if p > 0 {
      RunsToAt(id, r, foreign, p - 1, k);
      if k < p {
        ArtifactsDiffer(r, k, p);
      } else if k > p {
        ArtifactsDiffer(r, p, k);
      }
    }
  }

  // ---------------------------------------------------------------- attempts

  lemma {:induction false} NumberedMax(attempts: seq<Attempt>)
    requires Numbered(attempts)
    ensures MaxOrdinal(attempts) == |attempts|
  {
    if attempts != [] {
      NumberedMax(attempts[..|attempts| - 1]);
    }
  }

  /** A stored source stays; finishing the attempt of another partition does not remove it. */
  lemma SourcesStay(s: Store, ordinal: nat, scope: Scope, state: AttemptState,
                    finished: Option<Artifact>, artifact: Artifact, of: Scope)
    requires HasSource(s, artifact, of)
    ensures HasSource(StartFetch(s, ordinal, scope), artifact, of)
    ensures HasSource(FinishFetch(StartFetch(s, ordinal, scope), state, finished), artifact, of)
  {
    var i :| 0 <= i < |s.attempts| && s.attempts[i].state == Succeeded
             && s.attempts[i].artifact == Some(artifact) && s.attempts[i].scope == of;
    var started := StartFetch(s, ordinal, scope);
    assert started.attempts[i] == s.attempts[i];
    assert FinishFetch(started, state, finished).attempts[i] == s.attempts[i];
  }

  lemma FinishedIsSource(s: Store, ordinal: nat, scope: Scope, artifact: Artifact)
    ensures HasSource(FinishFetch(StartFetch(s, ordinal, scope), Succeeded, Some(artifact)),
                      artifact, scope)
  {
    var after := FinishFetch(StartFetch(s, ordinal, scope), Succeeded, Some(artifact));
    var i := |s.attempts|;
    assert after.attempts[i].state == Succeeded && after.attempts[i].artifact == Some(artifact)
           && after.attempts[i].scope == scope;
  }

  /** The tables after an attempt was started and perhaps finished. */
  ghost predicate AttemptAdded(s: Store, after: Store) {
    && after == s.(attempts := after.attempts)
    && |after.attempts| == |s.attempts| + 1
    && Numbered(after.attempts)
    && forall artifact, scope :: HasSource(s, artifact, scope) ==> HasSource(after, artifact, scope)
  }

  lemma StartAdds(s: Store, scope: Scope)
    requires Numbered(s.attempts)
    ensures AttemptAdded(s, StartFetch(s, |s.attempts| + 1, scope))
  {
    forall artifact, of | HasSource(s, artifact, of)
      ensures HasSource(StartFetch(s, |s.attempts| + 1, scope), artifact, of)
    {
      SourcesStay(s, |s.attempts| + 1, scope, Failed, None, artifact, of);
    }
  }

  lemma FinishAdds(s: Store, scope: Scope, state: AttemptState, artifact: Option<Artifact>)
    requires Numbered(s.attempts)
    ensures AttemptAdded(s, FinishFetch(StartFetch(s, |s.attempts| + 1, scope), state, artifact))
  {
    var after := FinishFetch(StartFetch(s, |s.attempts| + 1, scope), state, artifact);
    forall a, of | HasSource(s, a, of)
      ensures HasSource(after, a, of)
    {
      SourcesStay(s, |s.attempts| + 1, scope, state, artifact, a, of);
    }
  }

  lemma AttemptKeepsProgress(
    s: Store, after: Store, r: Request, foreign: map<Artifact, ParseRun>, p: nat)
    requires Progress(s, r, foreign, p) && AttemptAdded(s, after)
    ensures Progress(after, r, foreign, p)
  {
    forall k: nat | 1 <= k <= p
      ensures PartDone(after, r, foreign, k)
    {
      assert PartDone(s, r, foreign, k);
    }
  }

  // ---------------------------------------------------------------- one part

  lemma {:induction false} PartsToAt(r: Request, p: nat, k: nat)
    ensures k in PartsTo(r, p) <==> 1 <= k <= p
    ensures 1 <= k <= p ==> PartsTo(r, p)[k] == PartOf(r, k)
  {
    if p > 0 {
      PartsToAt(r, p - 1, k);
    }
  }

  lemma NewPartIsFree(s: Store, r: Request, foreign: map<Artifact, ParseRun>, p: nat)
    requires Progress(s, r, foreign, p) && p < |r.plan.scopes|
    ensures p + 1 !in s.parts
    ensures forall o :: o in s.parts ==> s.parts[o].scope != ScopeOf(r, p + 1)
  {
    PartsToAt(r, p, p + 1);
    forall o | o in s.parts
      ensures s.parts[o].scope != ScopeOf(r, p + 1)
    {
      PartsToAt(r, p, o);
      assert s.parts[o].scope == r.plan.scopes[o - 1];
    }
  }

  /** Persisting a stored partition again is a replay that changes nothing. */
  lemma StoredPartReplays(s: Store, r: Request, foreign: map<Artifact, ParseRun>, p: nat, k: nat)
    requires Progress(s, r, foreign, p) && 1 <= k <= p
    ensures PersistPart(s, k, ScopeOf(r, k), ArtifactOf(r, k), RowsOf(r, k)) == Some(s)
  {
    assert PartDone(s, r, foreign, k);
    RunsToAt(s.id, r, foreign, p, k);
  }

  lemma NewPartTables(s: Store, r: Request, foreign: map<Artifact, ParseRun>, p: nat)
    requires Progress(s, r, foreign, p) && p < |r.plan.scopes|
    requires Acceptable(r, foreign, p + 1)
    requires HasSource(s, ArtifactOf(r, p + 1), ScopeOf(r, p + 1))
    ensures var k := p + 1;
            Progress(s.(runs := s.runs[ArtifactOf(r, k) := RunOf(s.id, r, k)],
                        parts := s.parts[k := PartOf(r, k)],
                        facts := s.facts + Tagged(k, RowsOf(r, k).facts)),
                     r, foreign, k)
  {
    var k := p + 1;
    var after := s.(runs := s.runs[ArtifactOf(r, k) := RunOf(s.id, r, k)],
                    parts := s.parts[k := PartOf(r, k)],
                    facts := s.facts + Tagged(k, RowsOf(r, k).facts));
    forall j: nat | 1 <= j <= k
      ensures PartDone(after, r, foreign, j)
    {
      if j <= p {
        assert PartDone(s, r, foreign, j);
      }
      assert after.attempts == s.attempts;
    }
  }

  /** The next partition is stored exactly when its answer is acceptable. */
  lemma NextPartPersists(s: Store, r: Request, foreign: map<Artifact, ParseRun>, p: nat)
    requires Progress(s, r, foreign, p) && p < |r.plan.scopes|
    requires ResponseTo(r, p + 1).Fetched? && ResponseTo(r, p + 1).parsed.Some?
    requires HasSource(s, ArtifactOf(r, p + 1), ScopeOf(r, p + 1))
    ensures var k := p + 1;
            var result := PersistPart(s, k, ScopeOf(r, k), ArtifactOf(r, k), RowsOf(r, k));
            && (result.Some? <==> Acceptable(r, foreign, k))
            && (result.Some? ==> Progress(result.value, r, foreign, k)
                                 && result.value.attempts == s.attempts
                                 && result.value.id == s.id)
  {
    var k := p + 1;
    RunsToAt(s.id, r, foreign, p, k);
    NewPartIsFree(s, r, foreign, p);
    if Acceptable(r, foreign, k) {
      NewPartTables(s, r, foreign, p);
    }
  }

  // ---------------------------------------------------------------- one partition

  function Later(p: nat, k: nat): nat {
    if k > p then k else p
  }

  /** What one iteration leaves, and when it goes on to the next. */
  ghost predicate PartitionResult(
    s: Store, r: Request, foreign: map<Artifact, ParseRun>, p: nat, k: nat, dropped: bool,
    budget: nat, result: (Store, Option<Outcome>))
  {
    && result.0.id == s.id
    && (result.1.None? ==>
          && Acceptable(r, foreign, k) && budget >= 3
          && Progress(result.0, r, foreign, Later(p, k))
          && |result.0.attempts| == |s.attempts| + 1)
    && (result.1.Some? ==> Progress(result.0, r, foreign, p) && !result.1.value.Ingested?)
    && (!dropped && budget >= 3 && |s.attempts| < MAX_ATTEMPT && Acceptable(r, foreign, k) ==>
          result.1.None?)
    && (|s.attempts| >= MAX_ATTEMPT ==> result.1.Some?)
  }

  lemma PersistStep(
    s: Store, r: Request, foreign: map<Artifact, ParseRun>, p: nat, k: nat)
    requires Progress(s, r, foreign, p) && 1 <= k <= p + 1 && k <= |r.plan.scopes|
    requires ResponseTo(r, k).Fetched? && ResponseTo(r, k).parsed.Some?
    requires HasSource(s, ArtifactOf(r, k), ScopeOf(r, k))
    ensures var result := PersistPart(s, k, ScopeOf(r, k), ArtifactOf(r, k), RowsOf(r, k));
            && (result.Some? <==> Acceptable(r, foreign, k))
            && (result.Some? ==> Progress(result.value, r, foreign, Later(p, k))
                                 && result.value.attempts == s.attempts
                                 && result.value.id == s.id)
  {
    if k <= p {
      StoredPartReplays(s, r, foreign, p, k);
      assert PartDone(s, r, foreign, k);
    } else {
      NextPartPersists(s, r, foreign, p);
    }
  }

  lemma PartitionKeepsProgress(
    s: Store, r: Request, foreign: map<Artifact, ParseRun>, p: nat, k: nat, dropped: bool,
    budget: nat)
    requires Progress(s, r, foreign, p) && 1 <= k <= p + 1 && k <= |r.plan.scopes|
    ensures PartitionResult(s, r, foreign, p, k, dropped, budget,
                            Partition(s, r, dropped, k, |s.attempts| + 1, budget))
  {
    hide Filled, PersistPart, HasSource, AttemptAdded, PlanValid, KeysFree;
    var ordinal, scope := |s.attempts| + 1, ScopeOf(r, k);
    var started := StartFetch(s, ordinal, scope);
    StartAdds(s, scope);
    AttemptKeepsProgress(s, started, r, foreign, p);
    var failed := FinishFetch(started, Failed, None);
    FinishAdds(s, scope, Failed, None);
    AttemptKeepsProgress(s, failed, r, foreign, p);
    var fetched := FinishFetch(started, Succeeded, Some(ArtifactOf(r, k)));
    FinishAdds(s, scope, Succeeded, Some(ArtifactOf(r, k)));
    AttemptKeepsProgress(s, fetched, r, foreign, p);
    FinishedIsSource(s, ordinal, scope, ArtifactOf(r, k));
    if ResponseTo(r, k).Fetched? && ResponseTo(r, k).parsed.Some? {
      PersistStep(fetched, r, foreign, p, k);
    }
  }

  // ---------------------------------------------------------------- completion

  lemma {:induction false} ResultMatches(
    s: Store, r: Request, foreign: map<Artifact, ParseRun>, p: nat)
    requires Progress(s, r, foreign, |r.plan.scopes|) && p <= |r.plan.scopes|
    ensures forall o: nat :: 1 <= o <= p ==> o in s.parts && s.parts[o].artifact in s.runs
    ensures ResultTo(s, p) == ResultsTo(r, p)
  {
    forall o: nat | 1 <= o <= p
      ensures o in s.parts && s.parts[o].artifact in s.runs
    {
      PartsToAt(r, |r.plan.scopes|, o);
      RunsToAt(s.id, r, foreign, |r.plan.scopes|, o);
    }
    if p > 0 {
      ResultMatches(s, r, foreign, p - 1);
      PartsToAt(r, |r.plan.scopes|, p);
      RunsToAt(s.id, r, foreign, |r.plan.scopes|, p);
      CountFactsTo(r, |r.plan.scopes|, p);
    }
  }

  lemma StoredPartReconciles(
    s: Store, r: Request, foreign: map<Artifact, ParseRun>, o: nat)
    requires Progress(s, r, foreign, |r.plan.scopes|) && 1 <= o <= |r.plan.scopes|
    ensures o in s.parts && s.parts[o].scope == r.plan.scopes[o - 1] && PartReconciles(s, o)
  {
    assert PartDone(s, r, foreign, o);
    PartsToAt(r, |r.plan.scopes|, o);
    RunsToAt(s.id, r, foreign, |r.plan.scopes|, o);
    CountFactsTo(r, |r.plan.scopes|, o);
  }

  lemma FullIsReconciled(s: Store, r: Request, foreign: map<Artifact, ParseRun>)
    requires Progress(s, r, foreign, |r.plan.scopes|)
    ensures Reconciled(s)
  {
    forall o: nat | 1 <= o <= |r.plan.scopes|
      ensures o in s.parts && s.parts[o].scope == r.plan.scopes[o - 1] && PartReconciles(s, o)
    {
      StoredPartReconciles(s, r, foreign, o);
    }
    forall o | o in s.parts
      ensures 1 <= o <= |r.plan.scopes|
    {
      PartsToAt(r, |r.plan.scopes|, o);
    }
  }

  lemma IncompleteIsNotContiguous(
    s: Store, r: Request, foreign: map<Artifact, ParseRun>, p: nat)
    requires Progress(s, r, foreign, p) && p < |r.plan.scopes|
    ensures !Contiguous(s)
  {
    PartsToAt(r, p, p + 1);
  }

  /** Completion succeeds exactly when every partition is stored, and leaves the final form. */
  lemma CompletionIff(s: Store, r: Request, foreign: map<Artifact, ParseRun>, p: nat)
    requires Progress(s, r, foreign, p)
    ensures CompleteCollection(s).Some? <==> p == |r.plan.scopes|
    ensures p == |r.plan.scopes| ==>
              && CompleteCollection(s).value == s.(collection := Some(Final(r)))
              && Progress(CompleteCollection(s).value, r, foreign, p)
  {
    var n := |r.plan.scopes|;
    if p == n {
      FullIsReconciled(s, r, foreign);
      ResultMatches(s, r, foreign, n);
      AcceptedIsTotal(r, n, n);
      var done := s.(collection := Some(Final(r)));
      forall k: nat | 1 <= k <= p
        ensures PartDone(done, r, foreign, k)
      {
        assert PartDone(s, r, foreign, k);
        assert done.attempts == s.attempts;
      }
    } else {
      IncompleteIsNotContiguous(s, r, foreign, p);
    }
  }

  // ---------------------------------------------------------------- one run

  /** How the loop's answer continues after one turn. */
  ghost predicate Continues(
    answer: (Store, Outcome), step: (Store, Option<Outcome>), r: Request, drops: set<nat>,
    k: nat, next: nat, left: nat, total: nat)
  {
    if step.1.Some? then answer == (step.0, step.1.value)
    else
      && PlanValid(r) && step.0.collection.Some? && next >= 1
      && answer == Partitions(step.0, r, drops, k + 1, next, left, total)
  }

  lemma LoopContinues(
    s: Store, r: Request, drops: set<nat>, k: nat, next: nat, budget: nat, accepted: nat)
    returns (left: nat, total: nat)
    requires PlanValid(r) && s.collection.Some? && 1 <= k <= |r.plan.scopes| && next >= 1
    ensures var step := Partition(s, r, k in drops, k, next + k - 1, budget);
            && Continues(Partitions(s, r, drops, k, next, budget, accepted), step, r, drops, k,
                         next, left, total)
            && (step.1.None? ==> left + 3 == budget && total == accepted + |RowsOf(r, k).facts|)
  {
    PartitionsStep(s, r, drops, k, next, budget, accepted);
    left, total := if budget >= 3 then budget - 3 else 0, accepted + |RowsOf(r, k).facts|;
  }

  /** One turn of the loop: what it leaves and how the loop's answer continues from there. */
  lemma Turn(
    s: Store, r: Request, foreign: map<Artifact, ParseRun>, p: nat,
    drops: set<nat>, k: nat, next: nat, budget: nat, accepted: nat)
    returns (step: (Store, Option<Outcome>), left: nat, total: nat)
    requires Progress(s, r, foreign, p) && 1 <= k <= p + 1 && k <= |r.plan.scopes|
    requires next >= 1 && next + k == |s.attempts| + 2
    ensures PartitionResult(s, r, foreign, p, k, k in drops, budget, step)
    ensures Continues(Partitions(s, r, drops, k, next, budget, accepted), step, r, drops, k,
                      next, left, total)
    ensures step.1.None? ==> left + 3 == budget && total == accepted + |RowsOf(r, k).facts|
  {
    hide Partition, CompleteCollection;
    PartitionKeepsProgress(s, r, foreign, p, k, k in drops, budget);
    assert next + k - 1 == |s.attempts| + 1;
    step := Partition(s, r, k in drops, k, next + k - 1, budget);
    left, total := LoopContinues(s, r, drops, k, next, budget, accepted);
  }

  /** After the last partition. */
  lemma LastTurn(
    s: Store, r: Request, foreign: map<Artifact, ParseRun>, drops: set<nat>, next: nat,
    budget: nat, accepted: nat)
    returns (answer: (Store, Outcome))
    requires Progress(s, r, foreign, |r.plan.scopes|) && next >= 1
    ensures answer == Partitions(s, r, drops, |r.plan.scopes| + 1, next, budget, accepted)
    ensures Progress(answer.0, r, foreign, |r.plan.scopes|) && answer.0.id == s.id
    ensures budget > 0 ==> answer == (s.(collection := Some(Final(r))), Ingested(accepted))
  {
    CompletionIff(s, r, foreign, |r.plan.scopes|);
    answer := Partitions(s, r, drops, |r.plan.scopes| + 1, next, budget, accepted);
  }

  /** The whole loop keeps the invariant and never loses a part. */
  lemma {:induction false} PartitionsKeepProgress(
    s: Store, r: Request, foreign: map<Artifact, ParseRun>, p: nat,
    drops: set<nat>, k: nat, next: nat, budget: nat, accepted: nat)
    returns (reached: nat, answer: (Store, Outcome))
    requires Progress(s, r, foreign, p) && 1 <= k <= p + 1 && k <= |r.plan.scopes| + 1
    requires next >= 1 && next + k == |s.attempts| + 2
    ensures answer == Partitions(s, r, drops, k, next, budget, accepted)
    ensures Progress(answer.0, r, foreign, reached) && answer.0.id == s.id && reached >= p
    decreases |r.plan.scopes| + 1 - k
  {
    hide Partition, CompleteCollection;
    if k == |r.plan.scopes| + 1 {
      answer := LastTurn(s, r, foreign, drops, next, budget, accepted);
      reached := p;
    } else {
      var step, left, total := Turn(s, r, foreign, p, drops, k, next, budget, accepted);
      if step.1.Some? {
        reached, answer := p, (step.0, step.1.value);
      } else {
        reached, answer := PartitionsKeepProgress(
          step.0, r, foreign, Later(p, k), drops, k + 1, next, left, total);
      }
    }
  }

  lemma PlannedProgress(s: Store, r: Request, foreign: map<Artifact, ParseRun>)
    returns (planned: Store, p: nat)
    requires Inv(s, r, foreign) && PlanValid(r)
    ensures PlanCollection(s, r) == Some(planned)
    ensures Progress(planned, r, foreign, p)
    ensures planned == s.(collection := planned.collection)
    ensures s.collection.Some? ==> planned == s
  {
    if Fresh(s, foreign) {
      planned, p := s.(collection := Some(Collection(r.plan, Open, 0, []))), 0;
      assert Progress(planned, r, foreign, 0);
    } else {
      planned := s;
      p :| Progress(s, r, foreign, p);
    }
  }

  /** A run of any fate keeps the invariant. */
  lemma RunKeepsInv(s: Store, r: Request, foreign: map<Artifact, ParseRun>, fate: Fate)
    requires Inv(s, r, foreign) && PlanValid(r)
    ensures Inv(Ingest(s, r, fate).0, r, foreign)
    ensures Ingest(s, r, fate).0.id == s.id
  {
    hide Partitions;
    if fate.budget > 0 {
      var planned, p := PlannedProgress(s, r, foreign);
      NumberedMax(planned.attempts);
      var reached, answer := PartitionsKeepProgress(planned, r, foreign, p, fate.drops, 1,
                                                    |planned.attempts| + 1, fate.budget - 1, 0);
    }
  }

  function Runs(s: Store, r: Request, fates: seq<Fate>): Store
    decreases |fates|
  {
    if fates == [] then s else Runs(Ingest(s, r, fates[0]).0, r, fates[1..])
  }

  lemma {:induction false} RunsKeepInv(
    s: Store, r: Request, foreign: map<Artifact, ParseRun>, fates: seq<Fate>)
    requires Inv(s, r, foreign) && PlanValid(r)
    ensures Inv(Runs(s, r, fates), r, foreign)
    ensures Runs(s, r, fates).id == s.id
    decreases |fates|
  {
    if fates != [] {
      RunKeepsInv(s, r, foreign, fates[0]);
      RunsKeepInv(Ingest(s, r, fates[0]).0, r, foreign, fates[1..]);
    }
  }

  // ---------------------------------------------------------------- the uninterrupted run

  /** Enough transactions for the whole workflow, and no transport failure. */
  ghost predicate Uninterrupted(r: Request, fate: Fate) {
    fate.budget >= 3 * |r.plan.scopes| + 2 && fate.drops == {}
  }

  ghost predicate AcceptableFrom(r: Request, foreign: map<Artifact, ParseRun>, k: nat) {
    forall j: nat :: k <= j <= |r.plan.scopes| ==> Acceptable(r, foreign, j)
  }

  lemma AcceptableFromNext(r: Request, foreign: map<Artifact, ParseRun>, k: nat)
    requires k <= |r.plan.scopes|
    ensures AcceptableFrom(r, foreign, k)
       <==> Acceptable(r, foreign, k) && AcceptableFrom(r, foreign, k + 1)
  {
  }

  /** The answer of a clean loop from partition k on. */
  ghost predicate CleanAnswer(
    s: Store, r: Request, foreign: map<Artifact, ParseRun>, k: nat, answer: (Store, Outcome))
  {
    var n := |r.plan.scopes|;
    && (answer.1.Ingested?
        <==> (AcceptableFrom(r, foreign, k)
              && (k <= n ==> |s.attempts| + (n + 1 - k) <= MAX_ATTEMPT)))
    && (answer.1.Ingested? ==>
          && Progress(answer.0, r, foreign, n)
          && answer.0.collection == Some(Final(r))
          && answer.1 == Ingested(|FactsTo(r, n)|))
  }

  /** A clean turn stops only on an unacceptable answer or an attempt out of range. */
  lemma CleanStep(
    s: Store, r: Request, foreign: map<Artifact, ParseRun>, p: nat, k: nat, budget: nat,
    step: (Store, Option<Outcome>))
    requires PartitionResult(s, r, foreign, p, k, false, budget, step)
    requires budget >= 3 && 1 <= k <= |r.plan.scopes|
    ensures step.1.None? <==> Acceptable(r, foreign, k) && |s.attempts| < MAX_ATTEMPT
    ensures step.1.None? ==> |step.0.attempts| == |s.attempts| + 1
    ensures step.1.Some? ==> CleanAnswer(s, r, foreign, k, (step.0, step.1.value))
  {
    AcceptableFromNext(r, foreign, k);
  }

  lemma CleanExtends(
    s: Store, after: Store, r: Request, foreign: map<Artifact, ParseRun>, k: nat,
    answer: (Store, Outcome))
    requires 1 <= k <= |r.plan.scopes| && Acceptable(r, foreign, k)
    requires |after.attempts| == |s.attempts| + 1 && |s.attempts| < MAX_ATTEMPT
    requires CleanAnswer(after, r, foreign, k + 1, answer)
    ensures CleanAnswer(s, r, foreign, k, answer)
  {
    AcceptableFromNext(r, foreign, k);
  }

  lemma {:induction false} CleanPartitions(
    s: Store, r: Request, foreign: map<Artifact, ParseRun>, p: nat,
    k: nat, next: nat, budget: nat, accepted: nat)
    returns (answer: (Store, Outcome))
    requires Progress(s, r, foreign, p) && 1 <= k <= p + 1 && k <= |r.plan.scopes| + 1
    requires next >= 1 && next + k == |s.attempts| + 2
    requires budget >= 3 * (|r.plan.scopes| + 1 - k) + 1
    requires accepted == |FactsTo(r, k - 1)|
    ensures answer == Partitions(s, r, {}, k, next, budget, accepted)
    ensures CleanAnswer(s, r, foreign, k, answer)
    decreases |r.plan.scopes| + 1 - k
  {
    hide Partition, CompleteCollection;
    if k == |r.plan.scopes| + 1 {
      answer := LastTurn(s, r, foreign, {}, next, budget, accepted);
    } else {
      var step, left, total := Turn(s, r, foreign, p, {}, k, next, budget, accepted);
      CleanStep(s, r, foreign, p, k, budget, step);
      if step.1.Some? {
        answer := (step.0, step.1.value);
      } else {
        FactsOneMore(r, k);
        answer := CleanPartitions(step.0, r, foreign, Later(p, k), k + 1, next, left, total);
        CleanExtends(s, step.0, r, foreign, k, answer);
      }
    }
  }

  lemma FactsOneMore(r: Request, k: nat)
    requires k >= 1
    ensures |FactsTo(r, k)| == |FactsTo(r, k - 1)| + |RowsOf(r, k).facts|
  {
  }

  /**
   * From any reachable state an uninterrupted run succeeds exactly when the source's answers
   * are acceptable and the attempt ordinals still fit their column.
   */
  lemma UninterruptedRunIff(s: Store, r: Request, foreign: map<Artifact, ParseRun>, fate: Fate)
    requires Inv(s, r, foreign) && PlanValid(r) && Uninterrupted(r, fate)
    ensures var result := Ingest(s, r, fate);
            && (result.1.Ingested?
                <==> (AllAcceptable(r, foreign)
                      && |s.attempts| + |r.plan.scopes| <= MAX_ATTEMPT))
            && (result.1.Ingested? ==>
                  && Progress(result.0, r, foreign, |r.plan.scopes|)
                  && result.0.collection == Some(Final(r))
                  && result.1 == Ingested(|FactsTo(r, |r.plan.scopes|)|))
  {
    var answer := CleanIngest(s, r, foreign, fate);
    assert AcceptableFrom(r, foreign, 1) <==> AllAcceptable(r, foreign);
  }

  lemma SameAttempts(
    s: Store, planned: Store, r: Request, foreign: map<Artifact, ParseRun>,
    answer: (Store, Outcome))
    requires planned.attempts == s.attempts && CleanAnswer(planned, r, foreign, 1, answer)
    ensures CleanAnswer(s, r, foreign, 1, answer)
  {
  }

  lemma CleanIngest(s: Store, r: Request, foreign: map<Artifact, ParseRun>, fate: Fate)
    returns (answer: (Store, Outcome))
    requires Inv(s, r, foreign) && PlanValid(r) && Uninterrupted(r, fate)
    ensures answer == Ingest(s, r, fate) && CleanAnswer(s, r, foreign, 1, answer)
  {
    hide Partitions;
    var planned, p := PlannedProgress(s, r, foreign);
    NumberedMax(planned.attempts);
    answer := CleanPartitions(planned, r, foreign, p, 1, |planned.attempts| + 1,
                              fate.budget - 1, 0);
    SameAttempts(s, planned, r, foreign, answer);
  }

  // ---------------------------------------------------------------- equivalence

  ghost predicate Closed(s: Store) {
    s.collection.Some? && s.collection.value.state == Validated
  }

  ghost predicate SameOutcome(a: Store, b: Store) {
    && a.collection == b.collection
    && a.parts == b.parts
    && a.facts == b.facts
    && a.runs == b.runs
  }

  lemma ValidatedIsFull(s: Store, r: Request, foreign: map<Artifact, ParseRun>)
    requires Inv(s, r, foreign) && Closed(s)
    ensures Progress(s, r, foreign, |r.plan.scopes|)
    ensures s.collection == Some(Final(r)) && AllAcceptable(r, foreign)
  {
    var p :| Progress(s, r, foreign, p);
    forall k: nat | 1 <= k <= |r.plan.scopes|
      ensures Acceptable(r, foreign, k)
    {
      assert PartDone(s, r, foreign, k);
    }
  }

  /**
   * Crash and rerun equivalence: whatever interrupted runs lead to a validated collection, its
   * parts, rows, parse runs, counts and result digest are those of one uninterrupted run.
   */
  lemma CrashRerunEquivalence(
    start: Store, r: Request, foreign: map<Artifact, ParseRun>, fates: seq<Fate>, clean: Fate)
    requires Fresh(start, foreign) && PlanValid(r) && Uninterrupted(r, clean)
    requires Closed(Runs(start, r, fates))
    ensures Ingest(start, r, clean).1.Ingested?
    ensures SameOutcome(Runs(start, r, fates), Ingest(start, r, clean).0)
  {
    RunsKeepInv(start, r, foreign, fates);
    ValidatedIsFull(Runs(start, r, fates), r, foreign);
    UninterruptedRunIff(start, r, foreign, clean);
    RunKeepsInv(start, r, foreign, clean);
  }

  /** After any interruptions a clean rerun succeeds whenever a first clean run would have. */
  lemma RerunSucceeds(
    start: Store, r: Request, foreign: map<Artifact, ParseRun>, fates: seq<Fate>, clean: Fate)
    requires Fresh(start, foreign) && PlanValid(r) && Uninterrupted(r, clean)
    requires |Runs(start, r, fates).attempts| + |r.plan.scopes| <= MAX_ATTEMPT
    ensures Ingest(Runs(start, r, fates), r, clean).1.Ingested?
       <==> Ingest(start, r, clean).1.Ingested?
    ensures Ingest(start, r, clean).1.Ingested? ==>
              SameOutcome(Ingest(Runs(start, r, fates), r, clean).0, Ingest(start, r, clean).0)
  {
    RunsKeepInv(start, r, foreign, fates);
    UninterruptedRunIff(Runs(start, r, fates), r, foreign, clean);
    UninterruptedRunIff(start, r, foreign, clean);
    RunKeepsInv(start, r, foreign, clean);
    RunKeepsInv(Runs(start, r, fates), r, foreign, clean);
  }

  // ---------------------------------------------------------------- immutability

  lemma ClosedTurn(
    s: Store, r: Request, drops: set<nat>, k: nat, next: nat, budget: nat, accepted: nat)
    returns (after: Store, stop: Option<Outcome>, left: nat, total: nat)
    requires Closed(s) && PlanValid(r) && 1 <= k <= |r.plan.scopes| && next >= 1
    ensures Closed(after) && SameOutcome(after, s)
    ensures stop.Some? ==>
              Partitions(s, r, drops, k, next, budget, accepted) == (after, stop.value)
    ensures stop.None? ==>
              Partitions(s, r, drops, k, next, budget, accepted)
              == Partitions(after, r, drops, k + 1, next, left, total)
  {
    PartitionsStep(s, r, drops, k, next, budget, accepted);
    var step := Partition(s, r, k in drops, k, next + k - 1, budget);
    after, stop := step.0, step.1;
    left, total := if stop.None? then budget - 3 else 0, accepted + |RowsOf(r, k).facts|;
  }

  lemma {:induction false} ClosedPartitions(
    s: Store, r: Request, drops: set<nat>, k: nat, next: nat, budget: nat, accepted: nat)
    requires Closed(s) && PlanValid(r) && k >= 1 && next >= 1
    ensures SameOutcome(Partitions(s, r, drops, k, next, budget, accepted).0, s)
    decreases |r.plan.scopes| + 1 - k
  {
    hide Partition;
    if k <= |r.plan.scopes| {
      var after, stop, left, total := ClosedTurn(s, r, drops, k, next, budget, accepted);
      if stop.None? {
        ClosedPartitions(after, r, drops, k + 1, next, left, total);
      }
    }
  }

  /** No later run, of any plan and with any answers, changes a validated collection. */
  lemma ValidatedIsFrozen(s: Store, r: Request, fate: Fate)
    requires Closed(s)
    ensures SameOutcome(Ingest(s, r, fate).0, s)
  {
    if fate.budget > 0 && PlanCollection(s, r).Some? {
      ClosedPartitions(s, r, fate.drops, 1, MaxOrdinal(s.attempts) + 1, fate.budget - 1, 0);
    }
  }

  /** A run of a different plan is refused before it touches anything. */
  lemma ConflictingPlanIsRefused(s: Store, r: Request, fate: Fate)
    requires s.collection.Some? && s.collection.value.plan != r.plan
    ensures Ingest(s, r, fate).0 == s && !Ingest(s, r, fate).1.Ingested?
  {
  }
}
