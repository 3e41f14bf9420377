/**
 * What changing answers can lead to: every validated collection is the result of one clean
 * run of a single request, composed of answers that were really given.
 */
module IngestionComposite {
  import opened Common
  import opened Ingestion
  import opened IngestionRuns
  import opened IngestionHistory

  // ---------------------------------------------------------------- agreeing requests

  /** The same plan, and the same answers to the first p partitions. */
  ghost predicate Agree(r: Request, q: Request, p: nat) {
    r.plan == q.plan && forall k: nat :: 1 <= k <= p ==> ResponseTo(r, k) == ResponseTo(q, k)
  }

  lemma {:induction false} AgreeingContents(
    id: Uuid, r: Request, q: Request, foreign: map<Artifact, ParseRun>, p: nat)
    requires Agree(r, q, p)
    ensures FactsTo(r, p) == FactsTo(q, p)
    ensures PartsTo(r, p) == PartsTo(q, p)
    ensures RunsTo(id, r, foreign, p) == RunsTo(id, q, foreign, p)
  {
    if p > 0 {
      AgreeingContents(id, r, q, foreign, p - 1);
      assert ResponseTo(r, p) == ResponseTo(q, p);
    }
  }

  lemma AgreeingAcceptable(
    r: Request, q: Request, foreign: map<Artifact, ParseRun>, p: nat, k: nat)
    requires Agree(r, q, p) && 1 <= k <= p
    ensures Acceptable(r, foreign, k) <==> Acceptable(q, foreign, k)
    ensures ArtifactOf(r, k) == ArtifactOf(q, k) && ScopeOf(r, k) == ScopeOf(q, k)
  {
    AgreeingContents(0, r, q, foreign, k - 1);
    assert ResponseTo(r, k) == ResponseTo(q, k);
  }

  /** An open collection does not tell agreeing requests apart. */
  lemma AgreeingProgress(
    s: Store, r: Request, q: Request, foreign: map<Artifact, ParseRun>, p: nat)
    requires Progress(s, r, foreign, p) && Agree(r, q, p) && PlanValid(q)
    requires s.collection.value.state == Open
    ensures Progress(s, q, foreign, p)
  {
    AgreeingContents(s.id, r, q, foreign, p);
    forall k: nat | 1 <= k <= p
      ensures PartDone(s, q, foreign, k)
    {
      assert PartDone(s, r, foreign, k);
      AgreeingAcceptable(r, q, foreign, p, k);
    }
  }

  // ---------------------------------------------------------------- composing a request

  ghost predicate AnsweredBy(r: Request, k: nat, q: Request) {
    q.plan == r.plan && ResponseTo(q, k) == ResponseTo(r, k)
  }

  ghost predicate Given(r: Request, k: nat, history: History) {
    exists i :: 0 <= i < |history| && AnsweredBy(r, k, history[i].0)
  }

  /** Every answer to the first p partitions was given in some run of the same plan. */
  ghost predicate Composed(r: Request, history: History, p: nat) {
    forall k: nat :: 1 <= k <= p ==> Given(r, k, history)
  }

  /** The request with its answer to partition k taken from another one. */
  function Spliced(r: Request, q: Request, k: nat): Request
    requires PlanValid(r) && 1 <= k <= |r.plan.scopes|
  {
    r.(responses := r.responses[k - 1 := ResponseTo(q, k)])
  }

  lemma SplicedAgrees(r: Request, q: Request, k: nat)
    requires PlanValid(r) && q.plan == r.plan && 1 <= k <= |r.plan.scopes|
    ensures var t := Spliced(r, q, k);
            && PlanValid(t) && Agree(r, t, k - 1)
            && ResponseTo(t, k) == ResponseTo(q, k)
            && RowsOf(t, k) == RowsOf(q, k) && ArtifactOf(t, k) == ArtifactOf(q, k)
            && ScopeOf(t, k) == ScopeOf(q, k)
  {
  }

  lemma SplicedIsComposed(r: Request, q: Request, k: nat, history: History)
    requires PlanValid(r) && q.plan == r.plan && 1 <= k <= |r.plan.scopes|
    requires Composed(r, history, k - 1) && Asked(history, q)
    ensures Composed(Spliced(r, q, k), history, k)
  {
    var t := Spliced(r, q, k);
    SplicedAgrees(r, q, k);
    forall j: nat | 1 <= j <= k
      ensures Given(t, j, history)
    {
      if j < k {
        assert Given(r, j, history);
        var i :| 0 <= i < |history| && AnsweredBy(r, j, history[i].0);
        assert AnsweredBy(t, j, history[i].0);
      } else {
        var i :| 0 <= i < |history| && history[i].0 == q;
        assert AnsweredBy(t, k, history[i].0);
      }
    }
  }

  lemma ComposedLater(r: Request, history: History, p: nat, run: (Request, Fate))
    requires Composed(r, history, p)
    ensures Composed(r, history + [run], p)
  {
    forall k: nat | 1 <= k <= p
      ensures Given(r, k, history + [run])
    {
      assert Given(r, k, history);
      var i :| 0 <= i < |history| && AnsweredBy(r, k, history[i].0);
      assert (history + [run])[i] == history[i];
    }
  }

  /** The tables hold the first p partitions of a request composed of given answers. */
  ghost predicate Composes(
    s: Store, r: Request, foreign: map<Artifact, ParseRun>, history: History, p: nat)
  {
    Progress(s, r, foreign, p) && Composed(r, history, p)
  }

  // ---------------------------------------------------------------- one partition

  lemma StoredPartStays(
    s: Store, r: Request, foreign: map<Artifact, ParseRun>, p: nat, q: Request, k: nat)
    requires Progress(s, r, foreign, p) && 1 <= k <= p
    ensures var result := PersistPart(s, k, ScopeOf(q, k), ArtifactOf(q, k), RowsOf(q, k));
            result.Some? ==> result.value == s
  {
    PartsToAt(r, p, k);
  }

  /** Storing the next part leads to the request with that answer spliced in. */
  lemma NextPartComposes(
    s: Store, r: Request, foreign: map<Artifact, ParseRun>, history: History, p: nat, q: Request)
    requires Composes(s, r, foreign, history, p) && p < |r.plan.scopes|
    requires q.plan == r.plan && Asked(history, q)
    requires ResponseTo(q, p + 1).Fetched? && ResponseTo(q, p + 1).parsed.Some?
    requires HasSource(s, ArtifactOf(q, p + 1), ScopeOf(q, p + 1))
    ensures var k := p + 1;
            var result := PersistPart(s, k, ScopeOf(q, k), ArtifactOf(q, k), RowsOf(q, k));
            result.Some? ==>
              && Composes(result.value, Spliced(r, q, k), foreign, history, k)
              && result.value.attempts == s.attempts
              && result.value.id == s.id
  {
    hide PersistPart, Filled, HasSource;
    var t := Spliced(r, q, p + 1);
    SplicedAgrees(r, q, p + 1);
    SplicedIsComposed(r, q, p + 1, history);
    AgreeingProgress(s, r, t, foreign, p);
    NextPartPersists(s, t, foreign, p);
  }

  lemma PersistComposes(
    s: Store, r: Request, foreign: map<Artifact, ParseRun>, history: History, p: nat,
    q: Request, k: nat)
    returns (t: Request)
    requires Composes(s, r, foreign, history, p) && 1 <= k <= p + 1 && k <= |r.plan.scopes|
    requires q.plan == r.plan && Asked(history, q)
    requires ResponseTo(q, k).Fetched? && ResponseTo(q, k).parsed.Some?
    requires HasSource(s, ArtifactOf(q, k), ScopeOf(q, k))
    ensures var result := PersistPart(s, k, ScopeOf(q, k), ArtifactOf(q, k), RowsOf(q, k));
            result.Some? ==>
              && Composes(result.value, t, foreign, history, Later(p, k))
              && result.value.attempts == s.attempts
              && result.value.id == s.id
    ensures t.plan == r.plan
  {
    if k <= p {
      StoredPartStays(s, r, foreign, p, q, k);
      t := r;
    } else {
      NextPartComposes(s, r, foreign, history, p, q);
      t := Spliced(r, q, k);
    }
  }

  lemma AttemptComposes(
    s: Store, after: Store, r: Request, foreign: map<Artifact, ParseRun>, history: History,
    p: nat)
    requires Composes(s, r, foreign, history, p) && AttemptAdded(s, after)
    ensures Composes(after, r, foreign, history, p)
  {
    AttemptKeepsProgress(s, after, r, foreign, p);
  }

  /** What one iteration of a run of q leaves. */
  ghost predicate Turned(
    s: Store, r: Request, foreign: map<Artifact, ParseRun>, history: History, p: nat, k: nat,
    step: (Store, Option<Outcome>), t: Request, reached: nat)
  {
    && Composes(step.0, t, foreign, history, reached) && t.plan == r.plan
    && step.0.id == s.id
    && (step.1.None? ==> |step.0.attempts| == |s.attempts| + 1 && k <= reached)
  }

  lemma PartitionComposes(
    s: Store, r: Request, foreign: map<Artifact, ParseRun>, history: History, p: nat,
    q: Request, dropped: bool, k: nat, budget: nat)
    returns (t: Request, reached: nat)
    requires Composes(s, r, foreign, history, p) && 1 <= k <= p + 1 && k <= |r.plan.scopes|
    requires q.plan == r.plan && Asked(history, q)
    ensures Turned(s, r, foreign, history, p, k,
                   Partition(s, q, dropped, k, |s.attempts| + 1, budget), t, reached)
  {
    hide Progress, Composed, PersistPart, HasSource, AttemptAdded, Asked;
    var ordinal, scope := |s.attempts| + 1, ScopeOf(q, k);
    var started := StartFetch(s, ordinal, scope);
    ComposesIsNumbered(s, r, foreign, history, p);
    StartAdds(s, scope);
    AttemptComposes(s, started, r, foreign, history, p);
    var failed := FinishFetch(started, Failed, None);
    FinishAdds(s, scope, Failed, None);
    AttemptComposes(s, failed, r, foreign, history, p);
    var fetched := FinishFetch(started, Succeeded, Some(ArtifactOf(q, k)));
    FinishAdds(s, scope, Succeeded, Some(ArtifactOf(q, k)));
    AttemptComposes(s, fetched, r, foreign, history, p);
    FinishedIsSource(s, ordinal, scope, ArtifactOf(q, k));
    t, reached := r, p;
    var step := Partition(s, q, dropped, k, ordinal, budget);
    if ResponseTo(q, k).Fetched? && ResponseTo(q, k).parsed.Some? {
      var spliced := PersistComposes(fetched, r, foreign, history, p, q, k);
      if step.1.None? {
        t, reached := spliced, Later(p, k);
      }
    }
  }

  lemma ComposesIsNumbered(
    s: Store, r: Request, foreign: map<Artifact, ParseRun>, history: History, p: nat)
    requires Composes(s, r, foreign, history, p)
    ensures Numbered(s.attempts) && PlanValid(r)
    ensures s.collection.Some? && s.collection.value.plan == r.plan
  {
  }

  // ---------------------------------------------------------------- one run

  lemma LastTurnComposes(
    s: Store, r: Request, foreign: map<Artifact, ParseRun>, history: History, q: Request,
    drops: set<nat>, next: nat, budget: nat, accepted: nat)
    requires Composes(s, r, foreign, history, |r.plan.scopes|)
    requires q.plan == r.plan && PlanValid(q) && next >= 1
    ensures var answer := Partitions(s, q, drops, |r.plan.scopes| + 1, next, budget, accepted);
            Composes(answer.0, r, foreign, history, |r.plan.scopes|) && answer.0.id == s.id
  {
    CompletionIff(s, r, foreign, |r.plan.scopes|);
  }

  lemma {:induction false} PartitionsCompose(
    s: Store, r: Request, foreign: map<Artifact, ParseRun>, history: History, p: nat,
    q: Request, drops: set<nat>, k: nat, next: nat, budget: nat, accepted: nat)
    returns (t: Request, reached: nat)
    requires Composes(s, r, foreign, history, p) && 1 <= k <= p + 1 && k <= |r.plan.scopes| + 1
    requires q.plan == r.plan && PlanValid(q) && Asked(history, q)
    requires s.collection.Some? && next >= 1 && next + k == |s.attempts| + 2
    ensures Composes(Partitions(s, q, drops, k, next, budget, accepted).0, t, foreign, history,
                     reached)
    ensures Partitions(s, q, drops, k, next, budget, accepted).0.id == s.id
    decreases |r.plan.scopes| + 1 - k
  {
    hide Partition, CompleteCollection, Progress, Composed, Asked, PlanValid;
    ComposesIsNumbered(s, r, foreign, history, p);
    if k == |r.plan.scopes| + 1 {
      WithinPlan(s, r, foreign, history, p);
      LastTurnComposes(s, r, foreign, history, q, drops, next, budget, accepted);
      t, reached := r, p;
    } else {
      var step := Partition(s, q, k in drops, k, next + k - 1, budget);
      assert next + k - 1 == |s.attempts| + 1;
      t, reached := PartitionComposes(s, r, foreign, history, p, q, k in drops, k, budget);
      var left, total := LoopContinues(s, q, drops, k, next, budget, accepted);
      if step.1.None? {
        t, reached := PartitionsCompose(
          step.0, t, foreign, history, reached, q, drops, k + 1, next, left, total);
      }
    }
  }

  lemma WithinPlan(
    s: Store, r: Request, foreign: map<Artifact, ParseRun>, history: History, p: nat)
    requires Composes(s, r, foreign, history, p)
    ensures p <= |r.plan.scopes|
  {
  }

  // ---------------------------------------------------------------- every history

  ghost predicate Composable(s: Store, foreign: map<Artifact, ParseRun>, history: History) {
    Fresh(s, foreign) || exists r, p :: Composes(s, r, foreign, history, p)
  }

  lemma ComposableLater(
    s: Store, foreign: map<Artifact, ParseRun>, history: History, run: (Request, Fate))
    requires Composable(s, foreign, history)
    ensures Composable(s, foreign, history + [run])
  {
    if !Fresh(s, foreign) {
      var r, p :| Composes(s, r, foreign, history, p);
      ComposedLater(r, history, p, run);
      assert Composes(s, r, foreign, history + [run], p);
    }
  }

  lemma PlanComposes(s: Store, foreign: map<Artifact, ParseRun>, history: History, q: Request)
    returns (r: Request, p: nat)
    requires Composable(s, foreign, history) && PlanCollection(s, q).Some?
    ensures var planned := PlanCollection(s, q).value;
            && Composes(planned, r, foreign, history, p) && q.plan == r.plan
            && planned.attempts == s.attempts && planned.id == s.id
  {
    if Fresh(s, foreign) {
      r, p := q, 0;
      assert Progress(PlanCollection(s, q).value, q, foreign, 0);
    } else {
      r, p :| Composes(s, r, foreign, history, p);
    }
  }

  lemma IngestComposes(
    s: Store, foreign: map<Artifact, ParseRun>, history: History, q: Request, fate: Fate)
    requires Composable(s, foreign, history) && Asked(history, q)
    ensures Composable(Ingest(s, q, fate).0, foreign, history)
    ensures Ingest(s, q, fate).0.id == s.id
  {
    hide Partitions, Composes, Fresh, Asked;
    if fate.budget > 0 && PlanCollection(s, q).Some? {
      var planned := PlanCollection(s, q).value;
      var r, p := PlanComposes(s, foreign, history, q);
      ComposesIsNumbered(planned, r, foreign, history, p);
      NumberedMax(planned.attempts);
      var t, reached := PartitionsCompose(
        planned, r, foreign, history, p, q, fate.drops, 1, MaxOrdinal(planned.attempts) + 1,
        fate.budget - 1, 0);
    }
  }

  /** After every history the tables are those of one composed request. */
  lemma {:induction false} PlayComposes(
    start: Store, foreign: map<Artifact, ParseRun>, history: History)
    requires Fresh(start, foreign)
    ensures Composable(Play(start, history), foreign, history)
    ensures Play(start, history).id == start.id
  {
    hide Ingest, Composable;
    if history == [] {
      FreshIsComposable(start, foreign, history);
    } else {
      var front, last := history[..|history| - 1], history[|history| - 1];
      PlayComposes(start, foreign, front);
      ComposableLater(Play(start, front), foreign, front, last);
      assert history == front + [last];
      assert history[|history| - 1].0 == last.0;
      IngestComposes(Play(start, front), foreign, history, last.0, last.1);
    }
  }

  lemma FreshIsComposable(s: Store, foreign: map<Artifact, ParseRun>, history: History)
    requires Fresh(s, foreign)
    ensures Composable(s, foreign, history)
  {
  }

  /**
   * Whatever runs and changing answers lead to a validated collection, its parts, rows, parse
   * runs, counts and result digest are those of one uninterrupted run of a single request,
   * each of whose answers was given in some run.
   */
  lemma ChangingAnswersCompose(
    start: Store, foreign: map<Artifact, ParseRun>, history: History)
    returns (r: Request)
    requires Fresh(start, foreign) && Closed(Play(start, history))
    ensures r.plan == Play(start, history).collection.value.plan
    ensures PlanValid(r) && AllAcceptable(r, foreign)
    ensures Composed(r, history, |r.plan.scopes|)
    ensures forall clean :: Uninterrupted(r, clean) ==>
              && Ingest(start, r, clean).1.Ingested?
              && SameOutcome(Play(start, history), Ingest(start, r, clean).0)
  {
    hide Play, Ingest;
    var s := Play(start, history);
    PlayComposes(start, foreign, history);
    var t, p :| Composes(s, t, foreign, history, p);
    r := t;
    assert Inv(s, r, foreign);
    ValidatedIsFull(s, r, foreign);
    assert p == |r.plan.scopes|;
    forall clean | Uninterrupted(r, clean)
      ensures Ingest(start, r, clean).1.Ingested?
      ensures SameOutcome(s, Ingest(start, r, clean).0)
    {
      CleanRunOutcome(start, s, r, foreign, clean);
    }
  }

  lemma CleanRunOutcome(
    start: Store, s: Store, r: Request, foreign: map<Artifact, ParseRun>, clean: Fate)
    requires Fresh(start, foreign) && PlanValid(r) && Uninterrupted(r, clean)
    requires AllAcceptable(r, foreign) && s.id == start.id
    requires Progress(s, r, foreign, |r.plan.scopes|) && s.collection == Some(Final(r))
    ensures Ingest(start, r, clean).1.Ingested?
    ensures SameOutcome(s, Ingest(start, r, clean).0)
  {
    UninterruptedRunIff(start, r, foreign, clean);
    RunKeepsInv(start, r, foreign, clean);
  }

  ghost predicate CanValidate(start: Store, plan: Plan, history: History) {
    Closed(Play(start, history)) && Play(start, history).collection.value.plan == plan
  }

  ghost predicate Collectible(plan: Plan, r: Request, foreign: map<Artifact, ParseRun>) {
    r.plan == plan && PlanValid(r) && AllAcceptable(r, foreign)
  }

  /**
   * A plan can be validated, by any number of runs with any answers, exactly when some single
   * request answers every partition acceptably and with pages nobody else has parsed.
   */
  lemma ValidatesIff(start: Store, foreign: map<Artifact, ParseRun>, plan: Plan)
    requires Fresh(start, foreign)
    ensures (exists history :: CanValidate(start, plan, history))
       <==> (exists r :: Collectible(plan, r, foreign))
  {
    hide Play, Ingest;
    if history: History :| CanValidate(start, plan, history) {
      var r := ChangingAnswersCompose(start, foreign, history);
      assert Collectible(plan, r, foreign);
    }
    if r: Request :| Collectible(plan, r, foreign) {
      var clean := Fate(3 * |r.plan.scopes| + 2, {});
      UninterruptedRunIff(start, r, foreign, clean);
      PlayOne(start, r, clean);
      assert CanValidate(start, plan, [(r, clean)]);
    }
  }
}
