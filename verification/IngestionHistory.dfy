/**
 * Any history of runs of one collection ID, interrupted anywhere, in which the operator may
 * ask for a different plan and the source may answer differently every time.
 */
module IngestionHistory {
  import opened Common
  import opened Ingestion
  import opened IngestionRuns

  /** One run: what was asked, how the source answered, and where the run stopped. */
  type History = seq<(Request, Fate)>

  function Play(start: Store, history: History): Store {
    if history == [] then start
    else
      var last := history[|history| - 1];
      Ingest(Play(start, history[..|history| - 1]), last.0, last.1).0
  }

  // ---------------------------------------------------------------- the invariant

  /** The stored rows of one part, in order. */
  function OfPart(facts: seq<StoredFact>, part: nat): seq<StoredFact> {
    if facts == [] then []
    else
      OfPart(facts[..|facts| - 1], part)
      + (if facts[|facts| - 1].part == part then [facts[|facts| - 1]] else [])
  }

  /** Part, parse run and rows of an ordinal are those of one acceptable answer. */
  ghost predicate SuppliedBy(s: Store, o: nat, r: Request) {
    && o in s.parts
    && s.collection.Some? && s.collection.value.plan == r.plan
    && PlanValid(r)
    && 1 <= o <= |r.plan.scopes| == |r.responses|
    && r.responses[o - 1].Fetched? && r.responses[o - 1].parsed.Some?
    && var answer, scope := r.responses[o - 1], r.plan.scopes[o - 1];
       var rows, artifact := answer.parsed.value, Artifact(scope, answer.manifest);
       && rows.inputCount == |rows.facts| && rows.inScope && rows.resolved
       && s.parts[o] == Part(scope, artifact, |rows.facts|)
       && artifact in s.runs
       && s.runs[artifact] == ParseRun(true, rows.hash, |rows.facts|, Some(PartRef(s.id, o)))
       && OfPart(s.facts, o) == Tagged(o, rows.facts)
  }

  ghost predicate Supplied(s: Store, o: nat, history: History) {
    exists i :: 0 <= i < |history| && SuppliedBy(s, o, history[i].0)
  }

  ghost predicate PartSound(s: Store, o: nat, history: History)
    requires o in s.parts && s.collection.Some?
  {
    && 1 <= o <= |s.collection.value.plan.scopes|
    && HasSource(s, s.parts[o].artifact, s.parts[o].scope)
    && Supplied(s, o, history)
  }

  ghost predicate FactsOwned(s: Store) {
    forall i :: 0 <= i < |s.facts| ==> s.facts[i].part in s.parts
  }

  ghost predicate HasResult(s: Store, n: nat, result: seq<ResultPart>) {
    && (forall o: nat :: 1 <= o <= n ==> o in s.parts && s.parts[o].artifact in s.runs)
    && result == ResultTo(s, n)
  }

  /** What a validated collection records about itself. */
  ghost predicate Tallied(s: Store)
    requires s.collection.Some?
  {
    && Reconciled(s)
    && s.collection.value.accepted == |s.facts|
    && HasResult(s, |s.collection.value.plan.scopes|, s.collection.value.result)
  }

  ghost predicate ForeignKept(s: Store, foreign: map<Artifact, ParseRun>) {
    forall a :: a in foreign ==> a in s.runs && s.runs[a] == foreign[a]
  }

  /** Every other parse run was left by a part of this collection. */
  ghost predicate OwnRuns(s: Store, foreign: map<Artifact, ParseRun>) {
    forall a :: a in s.runs && a !in foreign ==>
      s.runs[a].part.Some? && s.runs[a].part.value.collection == s.id
  }

  ghost predicate Sound(s: Store, foreign: map<Artifact, ParseRun>, history: History) {
    && Foreign(s.id, foreign) && ForeignKept(s, foreign) && OwnRuns(s, foreign)
    && Numbered(s.attempts)
    && FactsOwned(s)
    && (s.collection.None? ==> s.parts == map[])
    && (s.collection.Some? ==>
          && s.collection.value.state != Abandoned
          && s.collection.value.plan.scopes != []
          && (forall o :: o in s.parts ==> PartSound(s, o, history))
          && (s.collection.value.state == Validated ==> Tallied(s)))
  }

  // ---------------------------------------------------------------- counting rows

  lemma {:induction false} OfPartCounts(facts: seq<StoredFact>, part: nat)
    ensures |OfPart(facts, part)| == CountOf(facts, part)
  {
    if facts != [] {
      OfPartCounts(facts[..|facts| - 1], part);
    }
  }

  lemma {:induction false} OfPartAppend(a: seq<StoredFact>, b: seq<StoredFact>, part: nat)
    ensures OfPart(a + b, part) == OfPart(a, part) + OfPart(b, part)
  {
    if b == [] {
      assert a + b == a;
    } else {
      OfPartAppend(a, b[..|b| - 1], part);
      assert (a + b)[..|a + b| - 1] == a + b[..|b| - 1];
    }
  }

  lemma {:induction false} OfPartTagged(p: nat, rows: seq<Fact>, part: nat)
    ensures OfPart(Tagged(p, rows), part) == if p == part then Tagged(p, rows) else []
  {
    if rows != [] {
      var front := rows[..|rows| - 1];
      OfPartTagged(p, front, part);
      assert Tagged(p, rows)[..|rows| - 1] == Tagged(p, front);
    }
  }

  lemma {:induction false} OfAbsentPart(facts: seq<StoredFact>, part: nat)
    requires forall i :: 0 <= i < |facts| ==> facts[i].part != part
    ensures OfPart(facts, part) == []
  {
    if facts != [] {
      OfAbsentPart(facts[..|facts| - 1], part);
    }
  }

  lemma {:induction false} AcceptedAppend(facts: seq<StoredFact>, f: StoredFact, n: nat)
    ensures AcceptedTo(facts + [f], n)
         == AcceptedTo(facts, n) + (if 1 <= f.part <= n then 1 else 0)
  {
    if n > 0 {
      AcceptedAppend(facts, f, n - 1);
      assert (facts + [f])[..|facts|] == facts;
    }
  }

  lemma {:induction false} AcceptedOfNone(n: nat)
    ensures AcceptedTo([], n) == 0
  {
    if n > 0 {
      AcceptedOfNone(n - 1);
    }
  }

  /** Rows that all belong to parts 1..n are counted exactly once by the parts' counts. */
  lemma {:induction false} AcceptedIsAll(facts: seq<StoredFact>, n: nat)
    requires forall i :: 0 <= i < |facts| ==> 1 <= facts[i].part <= n
    ensures AcceptedTo(facts, n) == |facts|
  {
    if facts == [] {
      AcceptedOfNone(n);
    } else {
      var front, last := facts[..|facts| - 1], facts[|facts| - 1];
      AcceptedIsAll(front, n);
      AcceptedAppend(front, last, n);
      assert facts == front + [last];
    }
  }

  // ---------------------------------------------------------------- transactions keep it

  /** Changes elsewhere in the tables leave a part supplied by the same answer. */
  lemma SuppliedStays(s: Store, after: Store, o: nat, history: History)
    requires Supplied(s, o, history)
    requires after.id == s.id && after.collection.Some? && s.collection.Some?
    requires after.collection.value.plan == s.collection.value.plan
    requires o in s.parts && o in after.parts && after.parts[o] == s.parts[o]
    requires forall a :: a in s.runs ==> a in after.runs && after.runs[a] == s.runs[a]
    requires OfPart(after.facts, o) == OfPart(s.facts, o)
    ensures Supplied(after, o, history)
  {
    var i :| 0 <= i < |history| && SuppliedBy(s, o, history[i].0);
    assert SuppliedBy(after, o, history[i].0);
  }

  lemma SuppliedLater(s: Store, o: nat, history: History, run: (Request, Fate))
    requires Supplied(s, o, history)
    ensures Supplied(s, o, history + [run])
  {
    var i :| 0 <= i < |history| && SuppliedBy(s, o, history[i].0);
    assert (history + [run])[i] == history[i];
  }

  lemma SoundLater(s: Store, foreign: map<Artifact, ParseRun>, history: History, run: (Request, Fate))
    requires Sound(s, foreign, history)
    ensures Sound(s, foreign, history + [run])
  {
    if s.collection.Some? {
      forall o | o in s.parts
        ensures PartSound(s, o, history + [run])
      {
        assert PartSound(s, o, history);
        SuppliedLater(s, o, history, run);
      }
    }
  }

  /** A supplied part reconciles: the recount of completion cannot fail on it. */
  lemma SuppliedReconciles(s: Store, o: nat, history: History)
    requires s.collection.Some? && o in s.parts && PartSound(s, o, history)
    ensures PartReconciles(s, o) && s.parts[o].scope == s.collection.value.plan.scopes[o - 1]
  {
    var i :| 0 <= i < |history| && SuppliedBy(s, o, history[i].0);
    OfPartCounts(s.facts, o);
  }

  lemma ReconciledStays(s: Store, after: Store)
    requires s.collection.Some? && Reconciled(s)
    requires after.parts == s.parts && after.runs == s.runs && after.facts == s.facts
    requires after.collection.Some? && after.collection.value.plan == s.collection.value.plan
    requires forall a, scope :: HasSource(s, a, scope) ==> HasSource(after, a, scope)
    ensures Reconciled(after)
  {
    forall o: nat | 1 <= o <= |s.collection.value.plan.scopes|
      ensures PartReconciles(after, o)
    {
      assert PartReconciles(s, o);
    }
  }

  lemma {:induction false} ResultStays(s: Store, after: Store, n: nat)
    requires after.parts == s.parts && after.runs == s.runs && after.facts == s.facts
    requires forall o: nat :: 1 <= o <= n ==> o in s.parts && s.parts[o].artifact in s.runs
    ensures ResultTo(after, n) == ResultTo(s, n)
  {
    if n > 0 {
      ResultStays(s, after, n - 1);
    }
  }

  lemma AttemptKeepsSound(
    s: Store, after: Store, foreign: map<Artifact, ParseRun>, history: History)
    requires Sound(s, foreign, history) && AttemptAdded(s, after)
    ensures Sound(after, foreign, history)
  {
    if s.collection.Some? {
      forall o | o in s.parts
        ensures PartSound(after, o, history)
      {
        assert PartSound(s, o, history);
        SuppliedStays(s, after, o, history);
      }
      if s.collection.value.state == Validated {
        ReconciledStays(s, after);
        ResultStays(s, after, |s.collection.value.plan.scopes|);
      }
    }
  }

  /** The tables after a new part and its rows are stored. */
  function WithPart(s: Store, r: Request, k: nat): Store {
    s.(runs := s.runs[ArtifactOf(r, k) := RunOf(s.id, r, k)],
       parts := s.parts[k := PartOf(r, k)],
       facts := s.facts + Tagged(k, RowsOf(r, k).facts))
  }

  lemma NewPartSupplied(s: Store, r: Request, k: nat)
    requires FactsOwned(s) && k !in s.parts
    requires s.collection.Some? && s.collection.value.plan == r.plan && PlanValid(r)
    requires ResponseTo(r, k).Fetched? && ResponseTo(r, k).parsed.Some?
    requires RowsOf(r, k).inputCount == |RowsOf(r, k).facts| && RowsOf(r, k).inScope && RowsOf(r, k).resolved
    ensures SuppliedBy(WithPart(s, r, k), k, r)
  {
    var rows := RowsOf(r, k).facts;
    OfPartAppend(s.facts, Tagged(k, rows), k);
    OfPartTagged(k, rows, k);
    OfAbsentPart(s.facts, k);
  }

  lemma OldPartSupplied(s: Store, r: Request, k: nat, o: nat, history: History)
    requires Supplied(s, o, history) && o in s.parts && s.collection.Some?
    requires k !in s.parts && ArtifactOf(r, k) !in s.runs
    ensures Supplied(WithPart(s, r, k), o, history)
  {
    var rows := RowsOf(r, k).facts;
    OfPartAppend(s.facts, Tagged(k, rows), o);
    OfPartTagged(k, rows, o);
    SuppliedStays(s, WithPart(s, r, k), o, history);
  }

  ghost predicate Asked(history: History, r: Request) {
    exists i :: 0 <= i < |history| && history[i].0 == r
  }

  /** What storing a part as answered by `r` needs. */
  ghost predicate Storable(s: Store, r: Request, k: nat) {
    && s.collection.Some? && s.collection.value.plan == r.plan && PlanValid(r)
    && s.collection.value.state == Open
    && 1 <= k <= |r.plan.scopes| && k !in s.parts && ArtifactOf(r, k) !in s.runs
    && ResponseTo(r, k).Fetched? && ResponseTo(r, k).parsed.Some?
    && RowsOf(r, k).inputCount == |RowsOf(r, k).facts| && RowsOf(r, k).inScope && RowsOf(r, k).resolved
    && HasSource(s, ArtifactOf(r, k), ScopeOf(r, k))
  }

  lemma NewPartSound(s: Store, history: History, r: Request, k: nat)
    requires FactsOwned(s) && Storable(s, r, k) && Asked(history, r)
    ensures PartSound(WithPart(s, r, k), k, history)
  {
    NewPartSupplied(s, r, k);
    var i :| 0 <= i < |history| && history[i].0 == r;
    assert SuppliedBy(WithPart(s, r, k), k, history[i].0);
    assert WithPart(s, r, k).attempts == s.attempts;
  }

  lemma OldPartSound(s: Store, history: History, r: Request, k: nat, o: nat)
    requires Storable(s, r, k) && o in s.parts && PartSound(s, o, history)
    ensures PartSound(WithPart(s, r, k), o, history)
  {
    OldPartSupplied(s, r, k, o, history);
    assert WithPart(s, r, k).attempts == s.attempts;
  }

  lemma StoringKeepsSound(
    s: Store, foreign: map<Artifact, ParseRun>, history: History, r: Request, k: nat)
    requires Sound(s, foreign, history) && Asked(history, r) && Storable(s, r, k)
    ensures Sound(WithPart(s, r, k), foreign, history)
  {
    hide HasSource, Supplied, PlanValid, PartSound;
    var after := WithPart(s, r, k);
    NewPartSound(s, history, r, k);
    forall o | o in after.parts
      ensures PartSound(after, o, history)
    {
      if o != k {
        OldPartSound(s, history, r, k, o);
      }
    }
  }

  lemma PersistKeepsSound(
    s: Store, foreign: map<Artifact, ParseRun>, history: History, r: Request, k: nat)
    requires Sound(s, foreign, history) && Asked(history, r)
    requires s.collection.Some? && s.collection.value.plan == r.plan && PlanValid(r)
    requires 1 <= k <= |r.plan.scopes|
    requires ResponseTo(r, k).Fetched? && ResponseTo(r, k).parsed.Some?
    ensures var result := PersistPart(s, k, ScopeOf(r, k), ArtifactOf(r, k), RowsOf(r, k));
            result.Some? ==>
              && Sound(result.value, foreign, history)
              && result.value.attempts == s.attempts
              && result.value.collection == s.collection
              && result.value.id == s.id
  {
    var result := PersistPart(s, k, ScopeOf(r, k), ArtifactOf(r, k), RowsOf(r, k));
    if result.Some? && ArtifactOf(r, k) !in s.runs {
      StoringKeepsSound(s, foreign, history, r, k);
      assert result.value == WithPart(s, r, k);
    }
  }

  // ---------------------------------------------------------------- one run keeps it

  /** Soundness of the tables while a run of `r` is under way. */
  ghost predicate Running(
    s: Store, foreign: map<Artifact, ParseRun>, history: History, r: Request)
  {
    && Sound(s, foreign, history) && Asked(history, r)
    && s.collection.Some? && s.collection.value.plan == r.plan && PlanValid(r)
  }

  lemma AttemptKeepsRunning(
    s: Store, after: Store, foreign: map<Artifact, ParseRun>, history: History, r: Request)
    requires Running(s, foreign, history, r) && AttemptAdded(s, after)
    ensures Running(after, foreign, history, r)
  {
    AttemptKeepsSound(s, after, foreign, history);
  }

  lemma RunningIsNumbered(
    s: Store, foreign: map<Artifact, ParseRun>, history: History, r: Request)
    requires Running(s, foreign, history, r)
    ensures Numbered(s.attempts)
  {
  }

  lemma PartitionKeepsRunning(
    s: Store, foreign: map<Artifact, ParseRun>, history: History, r: Request, dropped: bool,
    k: nat, budget: nat)
    requires Running(s, foreign, history, r) && 1 <= k <= |r.plan.scopes|
    ensures var step := Partition(s, r, dropped, k, |s.attempts| + 1, budget);
            && Running(step.0, foreign, history, r) && step.0.id == s.id
            && (step.1.None? ==> |step.0.attempts| == |s.attempts| + 1)
  {
    hide Sound, PersistPart, HasSource, AttemptAdded, PlanValid;
    var ordinal, scope := |s.attempts| + 1, ScopeOf(r, k);
    var started := StartFetch(s, ordinal, scope);
    RunningIsNumbered(s, foreign, history, r);
    StartAdds(s, scope);
    AttemptKeepsRunning(s, started, foreign, history, r);
    var failed := FinishFetch(started, Failed, None);
    FinishAdds(s, scope, Failed, None);
    AttemptKeepsRunning(s, failed, foreign, history, r);
    var fetched := FinishFetch(started, Succeeded, Some(ArtifactOf(r, k)));
    FinishAdds(s, scope, Succeeded, Some(ArtifactOf(r, k)));
    AttemptKeepsRunning(s, fetched, foreign, history, r);
    if ResponseTo(r, k).Fetched? && ResponseTo(r, k).parsed.Some? {
      PersistKeepsSound(fetched, foreign, history, r, k);
    }
  }

  /**
   * Completion of an open collection fails only for a missing part: whatever the source
   * answered, the recount of a stored part always comes out right.
   */
  lemma CompletionMissesOnlyParts(
    s: Store, foreign: map<Artifact, ParseRun>, history: History)
    requires Sound(s, foreign, history) && s.collection.Some?
    ensures CompleteCollection(s).Some?
       <==> forall o: nat :: 1 <= o <= |s.collection.value.plan.scopes| ==> o in s.parts
  {
    forall o | o in s.parts
      ensures PartReconciles(s, o) && s.parts[o].scope == s.collection.value.plan.scopes[o - 1]
    {
      assert PartSound(s, o, history);
      SuppliedReconciles(s, o, history);
    }
    forall o | o in s.parts
      ensures 1 <= o <= |s.collection.value.plan.scopes|
    {
      assert PartSound(s, o, history);
    }
  }

  lemma RowsAreInPlan(s: Store, foreign: map<Artifact, ParseRun>, history: History)
    requires Sound(s, foreign, history) && s.collection.Some?
    ensures AcceptedTo(s.facts, |s.collection.value.plan.scopes|) == |s.facts|
  {
    forall i | 0 <= i < |s.facts|
      ensures 1 <= s.facts[i].part <= |s.collection.value.plan.scopes|
    {
      assert PartSound(s, s.facts[i].part, history);
    }
    AcceptedIsAll(s.facts, |s.collection.value.plan.scopes|);
  }

  lemma CompletionTallies(s: Store, done: Store)
    requires s.collection.Some? && Reconciled(s)
    requires var n := |s.collection.value.plan.scopes|;
             && AcceptedTo(s.facts, n) == |s.facts|
             && (forall o: nat :: 1 <= o <= n ==> o in s.parts && s.parts[o].artifact in s.runs)
             && done == s.(collection := Some(s.collection.value.(
                             state := Validated, accepted := AcceptedTo(s.facts, n),
                             result := ResultTo(s, n))))
    ensures Tallied(done)
  {
    forall a, scope | HasSource(s, a, scope)
      ensures HasSource(done, a, scope)
    {
    }
    ReconciledStays(s, done);
    ResultStays(s, done, |s.collection.value.plan.scopes|);
  }

  lemma ClosedKeepsSound(
    s: Store, done: Store, foreign: map<Artifact, ParseRun>, history: History)
    requires Sound(s, foreign, history) && s.collection.Some? && done.collection.Some?
    requires done == s.(collection := done.collection)
    requires done.collection.value.plan == s.collection.value.plan
    requires done.collection.value.state == Validated && Tallied(done)
    ensures Sound(done, foreign, history)
  {
    forall o | o in done.parts
      ensures PartSound(done, o, history)
    {
      assert PartSound(s, o, history);
      SuppliedStays(s, done, o, history);
    }
  }

  lemma CompletionKeepsSound(
    s: Store, foreign: map<Artifact, ParseRun>, history: History)
    requires Sound(s, foreign, history) && s.collection.Some?
    ensures CompleteCollection(s).Some? ==>
              Sound(CompleteCollection(s).value, foreign, history)
    ensures CompleteCollection(s).Some? ==> CompleteCollection(s).value.id == s.id
  {
    hide AcceptedTo, ResultTo, Tallied;
    if CompleteCollection(s).Some? && s.collection.value.state == Open {
      RowsAreInPlan(s, foreign, history);
      CompletionTallies(s, CompleteCollection(s).value);
      ClosedKeepsSound(s, CompleteCollection(s).value, foreign, history);
    }
  }

  lemma {:induction false} PartitionsKeepSound(
    s: Store, foreign: map<Artifact, ParseRun>, history: History, r: Request,
    drops: set<nat>, k: nat, next: nat, budget: nat, accepted: nat)
    requires Running(s, foreign, history, r)
    requires 1 <= k <= |r.plan.scopes| + 1 && next >= 1 && next + k == |s.attempts| + 2
    ensures Sound(Partitions(s, r, drops, k, next, budget, accepted).0, foreign, history)
    ensures Partitions(s, r, drops, k, next, budget, accepted).0.id == s.id
    decreases |r.plan.scopes| + 1 - k
  {
    hide Partition, CompleteCollection, Sound;
    if k == |r.plan.scopes| + 1 {
      CompletionKeepsSound(s, foreign, history);
    } else {
      var step := Partition(s, r, k in drops, k, next + k - 1, budget);
      assert next + k - 1 == |s.attempts| + 1;
      PartitionKeepsRunning(s, foreign, history, r, k in drops, k, budget);
      var left, total := LoopContinues(s, r, drops, k, next, budget, accepted);
      if step.1.None? {
        PartitionsKeepSound(step.0, foreign, history, r, drops, k + 1, next, left, total);
      }
    }
  }

  lemma PlanKeepsSound(s: Store, foreign: map<Artifact, ParseRun>, history: History, r: Request)
    requires Sound(s, foreign, history) && Asked(history, r)
    ensures PlanCollection(s, r).Some? ==>
              && Running(PlanCollection(s, r).value, foreign, history, r)
              && PlanCollection(s, r).value.id == s.id
              && PlanCollection(s, r).value.attempts == s.attempts
  {
  }

  lemma IngestKeepsSound(
    s: Store, foreign: map<Artifact, ParseRun>, history: History, r: Request, fate: Fate)
    requires Sound(s, foreign, history) && Asked(history, r)
    ensures Sound(Ingest(s, r, fate).0, foreign, history)
    ensures Ingest(s, r, fate).0.id == s.id
  {
    hide Partitions;
    PlanKeepsSound(s, foreign, history, r);
    if fate.budget > 0 && PlanCollection(s, r).Some? {
      var planned := PlanCollection(s, r).value;
      NumberedMax(planned.attempts);
      PartitionsKeepSound(planned, foreign, history, r, fate.drops, 1,
                          MaxOrdinal(planned.attempts) + 1, fate.budget - 1, 0);
    }
  }

  /** Every history keeps the invariant. */
  lemma {:induction false} PlayIsSound(
    start: Store, foreign: map<Artifact, ParseRun>, history: History)
    requires Fresh(start, foreign)
    ensures Sound(Play(start, history), foreign, history)
    ensures Play(start, history).id == start.id
  {
    if history != [] {
      var front, last := history[..|history| - 1], history[|history| - 1];
      PlayIsSound(start, foreign, front);
      SoundLater(Play(start, front), foreign, front, last);
      assert history == front + [last];
      assert history[|history| - 1].0 == last.0;
      IngestKeepsSound(Play(start, front), foreign, history, last.0, last.1);
    }
  }

  // ---------------------------------------------------------------- what every history keeps

  /** The attempt ordinals of a collection are always 1..m. */
  lemma AttemptsAreNumbered(start: Store, foreign: map<Artifact, ParseRun>, history: History)
    requires Fresh(start, foreign)
    ensures Numbered(Play(start, history).attempts)
  {
    PlayIsSound(start, foreign, history);
  }

  /**
   * Row conservation: no row is lost, repeated or counted for the wrong part. At any time the
   * rows are as many as the parts' own counts, and a validated collection has every part of
   * its plan in order and a count equal to the rows it stores.
   */
  lemma RowConservation(start: Store, foreign: map<Artifact, ParseRun>, history: History)
    requires Fresh(start, foreign)
    ensures var s := Play(start, history);
            && (s.collection.Some? ==>
                  && AcceptedTo(s.facts, |s.collection.value.plan.scopes|) == |s.facts|
                  && forall o :: o in s.parts ==> CountOf(s.facts, o) == s.parts[o].factCount)
            && (Closed(s) ==> Reconciled(s) && s.collection.value.accepted == |s.facts|)
  {
    var s := Play(start, history);
    PlayIsSound(start, foreign, history);
    if s.collection.Some? {
      RowsAreInPlan(s, foreign, history);
      forall o | o in s.parts
        ensures CountOf(s.facts, o) == s.parts[o].factCount
      {
        assert PartSound(s, o, history);
        SuppliedReconciles(s, o, history);
      }
    }
  }

  /**
   * Even when the source changes its answers between runs, a stored part is never a mixture:
   * its artifact, count, parse run and rows are those of one answer to one of the runs.
   */
  lemma EveryPartIsOneAnswer(
    start: Store, foreign: map<Artifact, ParseRun>, history: History, o: nat)
    requires Fresh(start, foreign)
    requires o in Play(start, history).parts
    ensures exists i :: 0 <= i < |history| && SuppliedBy(Play(start, history), o, history[i].0)
  {
    PlayIsSound(start, foreign, history);
    assert PartSound(Play(start, history), o, history);
  }

  /**
   * A validated collection needs an answer of its own for every partition: if the answers to
   * one partition always repeat page manifests that other collections already parsed, no
   * history validates the collection.
   */
  lemma ForeignParseRunBlocks(
    start: Store, foreign: map<Artifact, ParseRun>, history: History, k: nat)
    requires Fresh(start, foreign)
    ensures var s := Play(start, history);
            Closed(s) && 1 <= k <= |s.collection.value.plan.scopes| ==>
              exists i :: && 0 <= i < |history|
                          && history[i].0.plan == s.collection.value.plan
                          && ArtifactOf(history[i].0, k) !in foreign
  {
    var s := Play(start, history);
    PlayIsSound(start, foreign, history);
    if Closed(s) && 1 <= k <= |s.collection.value.plan.scopes| {
      assert k in s.parts;
      EveryPartIsOneAnswer(start, foreign, history, k);
      var i :| 0 <= i < |history| && SuppliedBy(s, k, history[i].0);
      assert ArtifactOf(history[i].0, k) !in foreign;
    }
  }

  /** A new collection of the same source starts from the parse runs that this one left. */
  function Successor(s: Store, id: Uuid): Store {
    Store(id, None, [], s.runs, map[], [])
  }

  lemma SuccessorIsFresh(
    s: Store, foreign: map<Artifact, ParseRun>, history: History, id: Uuid)
    requires Sound(s, foreign, history) && id != s.id && Foreign(id, foreign)
    ensures Fresh(Successor(s, id), s.runs)
  {
  }

  lemma PlanIsAsked(s: Store, foreign: map<Artifact, ParseRun>, history: History)
    returns (i: nat)
    requires Sound(s, foreign, history) && Closed(s)
    ensures i < |history| && history[i].0.plan == s.collection.value.plan
  {
    assert 1 in s.parts && PartSound(s, 1, history);
    i :| 0 <= i < |history| && SuppliedBy(s, 1, history[i].0);
  }

  /** The plan has a partition k, answered with one of the given artifacts. */
  ghost predicate AnswersFrom(r: Request, artifacts: set<Artifact>, k: nat) {
    1 <= k <= |r.plan.scopes| && ArtifactOf(r, k) in artifacts
  }

  /** Every run answers partition k with pages that are already parsed. */
  ghost predicate AlwaysParsed(history: History, foreign: map<Artifact, ParseRun>, k: nat) {
    forall i :: 0 <= i < |history| ==> AnswersFrom(history[i].0, foreign.Keys, k)
  }

  lemma AlwaysParsedNeverCloses(
    start: Store, foreign: map<Artifact, ParseRun>, history: History, k: nat)
    requires Fresh(start, foreign) && AlwaysParsed(history, foreign, k)
    ensures !Closed(Play(start, history))
  {
    var s := Play(start, history);
    PlayIsSound(start, foreign, history);
    if Closed(s) {
      var i := PlanIsAsked(s, foreign, history);
      assert AnswersFrom(history[i].0, foreign.Keys, k);
      ForeignParseRunBlocks(start, foreign, history, k);
    }
  }

  /** Every run answers partition k with the given pages. */
  ghost predicate Repeats(history: History, artifact: Artifact, k: nat) {
    forall i :: 0 <= i < |history| ==> AnswersFrom(history[i].0, {artifact}, k)
  }

  lemma RepeatsAreParsed(
    history: History, artifact: Artifact, foreign: map<Artifact, ParseRun>, k: nat)
    requires Repeats(history, artifact, k) && artifact in foreign
    ensures AlwaysParsed(history, foreign, k)
  {
    forall i | 0 <= i < |history|
      ensures AnswersFrom(history[i].0, foreign.Keys, k)
    {
      assert AnswersFrom(history[i].0, {artifact}, k);
    }
  }

  /**
   * Two collections cannot share one answer: once a collection has stored a part, another
   * collection ID whose answers to that partition repeat the same pages is never validated.
   */
  lemma SecondCollectionNeverValidates(
    start: Store, foreign: map<Artifact, ParseRun>, first: History, id: Uuid, second: History,
    k: nat)
    requires Fresh(start, foreign) && id != start.id && Foreign(id, foreign)
    requires k in Play(start, first).parts
    requires Repeats(second, Play(start, first).parts[k].artifact, k)
    ensures !Closed(Play(Successor(Play(start, first), id), second))
  {
    hide Play, Sound, Repeats, AlwaysParsed;
    var s := Play(start, first);
    PlayIsSound(start, foreign, first);
    SuccessorIsFresh(s, foreign, first, id);
    StoredArtifactIsParsed(s, foreign, first, k);
    RepeatsAreParsed(second, s.parts[k].artifact, s.runs, k);
    AlwaysParsedNeverCloses(Successor(s, id), s.runs, second, k);
  }

  lemma StoredArtifactIsParsed(
    s: Store, foreign: map<Artifact, ParseRun>, history: History, k: nat)
    requires Sound(s, foreign, history) && k in s.parts
    ensures s.parts[k].artifact in s.runs
  {
    assert PartSound(s, k, history);
  }

  function EmptyStore(id: Uuid): Store {
    Store(id, None, [], map[], map[], [])
  }

  /** Runs against a source that never changes its answers. */
  function Repeated(r: Request, fates: seq<Fate>): (history: History)
    ensures |history| == |fates|
    ensures forall i :: 0 <= i < |fates| ==> history[i].0 == r
  {
    seq(|fates|, i requires 0 <= i < |fates| => (r, fates[i]))
  }

  lemma PlayOne(start: Store, r: Request, fate: Fate)
    ensures Play(start, [(r, fate)]) == Ingest(start, r, fate).0
  {
    hide Ingest;
    assert [(r, fate)][..0] == [];
  }

  /** A history that starts with one run goes on from what that run left. */
  lemma {:induction false} PlayFirst(start: Store, first: (Request, Fate), rest: History)
    ensures Play(start, [first] + rest) == Play(Ingest(start, first.0, first.1).0, rest)
  {
    hide Ingest;
    var history := [first] + rest;
    if rest == [] {
      assert history == [first] && history[..0] == [];
    } else {
      var n := |rest| - 1;
      PlayFirst(start, first, rest[..n]);
      assert history[..|history| - 1] == [first] + rest[..n];
      assert history[|history| - 1] == rest[n];
    }
  }

  /** Runs of one request are the history that repeats it. */
  lemma {:induction false} RunsAreOneHistory(start: Store, r: Request, fates: seq<Fate>)
    ensures Runs(start, r, fates) == Play(start, Repeated(r, fates))
    decreases |fates|
  {
    hide Ingest;
    if fates != [] {
      RunsAreOneHistory(Ingest(start, r, fates[0]).0, r, fates[1..]);
      PlayFirst(start, (r, fates[0]), Repeated(r, fates[1..]));
      assert Repeated(r, fates) == [(r, fates[0])] + Repeated(r, fates[1..]);
    }
  }

  /**
   * An unchanged source can be collected once: one clean run validates the first collection
   * ID, and no runs of any other collection ID over the same answers ever validate that one.
   */
  lemma UnchangedSourceIsCollectedOnce(
    r: Request, clean: Fate, first: Uuid, second: Uuid, fates: seq<Fate>)
    requires PlanValid(r) && AllAcceptable(r, map[]) && Uninterrupted(r, clean)
    requires first != second
    ensures var done := Play(EmptyStore(first), [(r, clean)]);
            && Closed(done)
            && !Closed(Play(Successor(done, second), Repeated(r, fates)))
  {
    hide Ingest, Play;
    UninterruptedRunIff(EmptyStore(first), r, map[], clean);
    PlayOne(EmptyStore(first), r, clean);
    PartsToAt(r, |r.plan.scopes|, 1);
    SecondCollectionNeverValidates(
      EmptyStore(first), map[], [(r, clean)], second, Repeated(r, fates), 1);
  }

  /** One scope, one page, one row: a source that can be collected. */
  function OneRowRequest(): Request {
    Request(Plan(0, 0, "manifest", "window", [7]), true,
            [Fetched(1, Some(Parsed(2, 1, [Fact(3, 4)], true, true)))])
  }

  lemma OneRowIsAcceptable(r: Request)
    requires r == OneRowRequest()
    ensures PlanValid(r) && AllAcceptable(r, map[])
  {
    var row := Fact(3, 4);
    assert RowsOf(r, 1).facts == [row];
    assert [row][..0] == [];
    assert KeysFree([], 1, []);
    assert FactsTo(r, 0) == [];
  }

  /** Its second collection is blocked, however often it is run. */
  lemma SecondCollectionIsBlocked(fates: seq<Fate>)
    ensures var done := Play(EmptyStore(0), [(OneRowRequest(), Fate(5, {}))]);
            Closed(done) && !Closed(Play(Successor(done, 1), Repeated(OneRowRequest(), fates)))
  {
    hide Play;
    OneRowIsAcceptable(OneRowRequest());
    UnchangedSourceIsCollectedOnce(OneRowRequest(), Fate(5, {}), 0, 1, fates);
  }
}
