/**
 * The transactions of a collection in terms of single rows: the next attempt's ordinal, when a
 * part is stored or found again and what the tables then hold, and when a collection completes.
 */
module IngestionMeaning {
  import opened Common
  import opened Ingestion

  // ---------------------------------------------------------------- ordinals and counts

  /** The ordinal that a run starts counting from is the greatest one used, or 0. */
  lemma {:induction false} MaxOrdinalIsGreatest(attempts: seq<Attempt>)
    ensures forall i :: 0 <= i < |attempts| ==> attempts[i].ordinal <= MaxOrdinal(attempts)
    ensures attempts == [] ==> MaxOrdinal(attempts) == 0
    ensures attempts != [] ==>
              exists i :: 0 <= i < |attempts| && attempts[i].ordinal == MaxOrdinal(attempts)
  {
    if attempts != [] {
      var front, last := attempts[..|attempts| - 1], attempts[|attempts| - 1];
      MaxOrdinalIsGreatest(front);
      if front != [] {
        var i :| 0 <= i < |front| && front[i].ordinal == MaxOrdinal(front);
        assert attempts[i] == front[i];
      }
      assert attempts[|attempts| - 1] == last;
      assert forall i :: 0 <= i < |front| ==> attempts[i] == front[i];
    }
  }

  /** The places of the rows of one part. */
  ghost function RowsIn(facts: seq<StoredFact>, part: nat): set<int> {
    set i | 0 <= i < |facts| && facts[i].part == part
  }

  /** The places of the rows of the parts up to n. */
  ghost function RowsUpTo(facts: seq<StoredFact>, n: nat): set<int> {
    set i | 0 <= i < |facts| && 1 <= facts[i].part <= n
  }

  lemma {:induction false} CountIsRows(facts: seq<StoredFact>, part: nat)
    ensures CountOf(facts, part) == |RowsIn(facts, part)|
  {
    if facts != [] {
      var last := |facts| - 1;
      CountIsRows(facts[..last], part);
      if facts[last].part == part {
        assert RowsIn(facts, part) == RowsIn(facts[..last], part) + {last};
      } else {
        assert RowsIn(facts, part) == RowsIn(facts[..last], part);
      }
    }
  }

  lemma {:induction false} AcceptedIsRows(facts: seq<StoredFact>, n: nat)
    ensures AcceptedTo(facts, n) == |RowsUpTo(facts, n)|
  {
    if n > 0 {
      AcceptedIsRows(facts, n - 1);
      CountIsRows(facts, n);
      assert RowsUpTo(facts, n) == RowsUpTo(facts, n - 1) + RowsIn(facts, n);
      assert RowsUpTo(facts, n - 1) !! RowsIn(facts, n);
    }
  }

  // ---------------------------------------------------------------- storing a part

  ghost predicate FetchedFor(s: Store, artifact: Artifact, scope: Scope) {
    exists a :: && a in s.attempts && a.state == Succeeded && a.scope == scope
                && a.artifact == Some(artifact)
  }

  /** The answer covers its request, and some attempt fetched it. */
  ghost predicate Usable(s: Store, ordinal: nat, scope: Scope, artifact: Artifact, parsed: Parsed)
    requires s.collection.Some?
  {
    && parsed.inputCount == |parsed.facts| && parsed.inScope
    && 1 <= ordinal <= |s.collection.value.plan.scopes|
    && FetchedFor(s, artifact, scope)
  }

  /** The pages were parsed before, for this part and with this result. */
  ghost predicate ParsedBefore(s: Store, ordinal: nat, artifact: Artifact, parsed: Parsed) {
    && artifact in s.runs && s.runs[artifact].validated
    && s.runs[artifact].hash == parsed.hash
    && s.runs[artifact].part == Some(PartRef(s.id, ordinal))
  }

  /** Nothing is in the way of a new part. */
  ghost predicate Unclaimed(s: Store, ordinal: nat, scope: Scope, artifact: Artifact, parsed: Parsed)
    requires s.collection.Some?
  {
    && artifact !in s.runs && s.collection.value.state == Open
    && ordinal !in s.parts && (forall o :: o in s.parts ==> s.parts[o].scope != scope)
    && parsed.resolved && KeysNew(s.facts, parsed.facts)
  }

  /** One parse run, one part and the rows in order are added; all else is as before. */
  ghost predicate AddsPart(
    s: Store, after: Store, ordinal: nat, scope: Scope, artifact: Artifact, parsed: Parsed)
  {
    && after.id == s.id && after.collection == s.collection && after.attempts == s.attempts
    && after.runs.Keys == s.runs.Keys + {artifact}
    && (forall a :: a in s.runs && a != artifact ==> after.runs[a] == s.runs[a])
    && after.runs[artifact]
       == ParseRun(true, parsed.hash, |parsed.facts|, Some(PartRef(s.id, ordinal)))
    && after.parts.Keys == s.parts.Keys + {ordinal}
    && (forall o :: o in s.parts && o != ordinal ==> after.parts[o] == s.parts[o])
    && after.parts[ordinal] == Part(scope, artifact, |parsed.facts|)
    && |after.facts| == |s.facts| + |parsed.facts|
    && (forall i :: 0 <= i < |s.facts| ==> after.facts[i] == s.facts[i])
    && (forall i :: 0 <= i < |parsed.facts| ==>
          after.facts[|s.facts| + i] == StoredFact(ordinal, parsed.facts[i]))
  }

  lemma FetchedIffSource(s: Store, artifact: Artifact, scope: Scope)
    ensures FetchedFor(s, artifact, scope) <==> HasSource(s, artifact, scope)
  {
    if a :| a in s.attempts && a.state == Succeeded && a.scope == scope
            && a.artifact == Some(artifact) {
      var i :| 0 <= i < |s.attempts| && s.attempts[i] == a;
      assert s.attempts[i].state == Succeeded;
    }
    if i :| 0 <= i < |s.attempts| && s.attempts[i].state == Succeeded
            && s.attempts[i].artifact == Some(artifact) && s.attempts[i].scope == scope {
      assert s.attempts[i] in s.attempts;
    }
  }

  /**
   * Persisting an answer: a part is found again without a change, or added with its rows, or
   * the transaction rolls back; for any tables, reachable or not.
   */
  lemma PersistOutcomes(s: Store, ordinal: nat, scope: Scope, artifact: Artifact, parsed: Parsed)
    requires s.collection.Some?
    ensures var after := PersistPart(s, ordinal, scope, artifact, parsed);
            && (after.Some? <==>
                  && Usable(s, ordinal, scope, artifact, parsed)
                  && (ParsedBefore(s, ordinal, artifact, parsed)
                      || Unclaimed(s, ordinal, scope, artifact, parsed)))
            && (after.Some? && artifact in s.runs ==> after.value == s)
            && (after.Some? && artifact !in s.runs ==>
                  AddsPart(s, after.value, ordinal, scope, artifact, parsed))
  {
    FetchedIffSource(s, artifact, scope);
    KeysFreeIff(s.facts, ordinal, parsed.facts);
  }

  // ---------------------------------------------------------------- completing

  /**
   * The planned part o is stored under its scope, was fetched for it, and has as many rows as
   * it and its validated parse run say.
   */
  ghost predicate PartComplete(s: Store, o: nat)
    requires s.collection.Some?
  {
    var scopes := s.collection.value.plan.scopes;
    && 1 <= o <= |scopes|
    && o in s.parts && s.parts[o].scope == scopes[o - 1]
    && s.parts[o].artifact in s.runs && s.runs[s.parts[o].artifact].validated
    && s.runs[s.parts[o].artifact].accepted == s.parts[o].factCount == |RowsIn(s.facts, o)|
    && FetchedFor(s, s.parts[o].artifact, scopes[o - 1])
  }

  /** The parts are those of the plan, each complete. */
  ghost predicate PartsComplete(s: Store)
    requires s.collection.Some?
  {
    && (forall o :: o in s.parts ==> 1 <= o <= |s.collection.value.plan.scopes|)
    && (forall o: nat :: 1 <= o <= |s.collection.value.plan.scopes| ==> PartComplete(s, o))
  }

  /** One result per scope, in plan order. */
  ghost predicate ResultOf(s: Store, result: seq<ResultPart>)
    requires s.collection.Some?
  {
    var scopes := s.collection.value.plan.scopes;
    && |result| == |scopes|
    && forall o: nat :: 1 <= o <= |scopes| ==>
         && PartComplete(s, o)
         && result[o - 1] == ResultPart(o, scopes[o - 1], s.runs[s.parts[o].artifact].hash,
                                        |RowsIn(s.facts, o)|)
  }

  lemma PartIff(s: Store, o: nat)
    requires s.collection.Some? && 1 <= o <= |s.collection.value.plan.scopes|
    ensures PartComplete(s, o)
       <==> o in s.parts && s.parts[o].scope == s.collection.value.plan.scopes[o - 1]
            && PartReconciles(s, o)
  {
    if o in s.parts {
      FetchedIffSource(s, s.parts[o].artifact, s.parts[o].scope);
      CountIsRows(s.facts, o);
    }
  }

  lemma PartsIff(s: Store)
    requires s.collection.Some?
    ensures PartsComplete(s) <==> Reconciled(s)
  {
    hide PartComplete, PartReconciles;
    forall o: nat | 1 <= o <= |s.collection.value.plan.scopes|
      ensures PartComplete(s, o)
         <==> o in s.parts && s.parts[o].scope == s.collection.value.plan.scopes[o - 1]
              && PartReconciles(s, o)
    {
      PartIff(s, o);
    }
  }

  lemma {:induction false} ResultAt(s: Store, n: nat, o: nat)
    requires forall k: nat :: 1 <= k <= n ==> k in s.parts && s.parts[k].artifact in s.runs
    requires 1 <= o <= n
    ensures |ResultTo(s, n)| == n
    ensures ResultTo(s, n)[o - 1]
         == ResultPart(o, s.parts[o].scope, s.runs[s.parts[o].artifact].hash,
                       CountOf(s.facts, o))
  {
    if n > 1 {
      ResultAt(s, n - 1, if o < n then o else 1);
    }
  }

  lemma ResultsAre(s: Store, n: nat)
    requires s.collection.Some? && PartsComplete(s)
    requires n == |s.collection.value.plan.scopes|
    ensures forall k: nat :: 1 <= k <= n ==> k in s.parts && s.parts[k].artifact in s.runs
    ensures ResultOf(s, ResultTo(s, n))
  {
    var scopes := s.collection.value.plan.scopes;
    assert forall k: nat :: 1 <= k <= n && PartComplete(s, k) ==>
        k in s.parts && s.parts[k].artifact in s.runs;
    if n >= 1 {
      ResultAt(s, n, 1);
    }
    forall o: nat | 1 <= o <= n
      ensures ResultTo(s, n)[o - 1]
           == ResultPart(o, scopes[o - 1], s.runs[s.parts[o].artifact].hash,
                         |RowsIn(s.facts, o)|)
    {
      assert PartComplete(s, o);
      ResultAt(s, n, o);
      CountIsRows(s.facts, o);
    }
  }

  /**
   * Completing a collection: a validated one is left alone; an open one is validated exactly
   * when its parts are those of the plan, each with the rows it counts, and then records the
   * number of rows and one result per scope in plan order; for any tables.
   */
  lemma CompletionOutcomes(s: Store)
    requires s.collection.Some?
    ensures var c, after := s.collection.value, CompleteCollection(s);
            && (after.Some? <==>
                  c.state == Validated || (c.state == Open && PartsComplete(s)))
            && (after.Some? && c.state == Validated ==> after.value == s)
            && (after.Some? && c.state == Open ==>
                  && after.value == s.(collection := after.value.collection)
                  && after.value.collection.Some?
                  && after.value.collection.value.plan == c.plan
                  && after.value.collection.value.state == Validated
                  && after.value.collection.value.accepted
                     == |RowsUpTo(s.facts, |c.plan.scopes|)|
                  && ResultOf(s, after.value.collection.value.result))
  {
    hide PartsComplete, Reconciled, ResultOf;
    PartsIff(s);
    AcceptedIsRows(s.facts, |s.collection.value.plan.scopes|);
    if PartsComplete(s) {
      ResultsAre(s, |s.collection.value.plan.scopes|);
    }
  }
}
