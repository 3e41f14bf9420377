/**
 * One historical collection and the transactions that fill it: plan, start a fetch, finish
 * it, persist a part with its facts, complete. A run may stop after any transaction, and a
 * later run with the same collection ID resumes. Hashes are represented by what they digest.
 */
module Ingestion {
  import opened Common

  type Scope = nat

  datatype Plan = Plan(kind: nat, source: Uuid, manifest: string, window: string, scopes: seq<Scope>)

  /** A typed row: its unique key within the collection and everything else. */
  datatype Fact = Fact(key: nat, content: nat)

  datatype StoredFact = StoredFact(part: nat, fact: Fact)

  /**
   * What the parser makes of one response. `inScope` is the comparison of the rows with their
   * request; `resolved` is whether every series, region and market of the rows is known.
   */
  datatype Parsed = Parsed(
    hash: nat, inputCount: nat, facts: seq<Fact>, inScope: bool, resolved: bool)

  datatype Response =
    | Unreachable
    | Unreconciled
    | Fetched(manifest: nat, parsed: Option<Parsed>)

  /** Content-addressed: one artifact per request scope and page manifest. */
  datatype Artifact = Artifact(scope: Scope, manifest: nat)

  datatype AttemptState = Started | Succeeded | Failed

  datatype Attempt = Attempt(ordinal: nat, scope: Scope, state: AttemptState, artifact: Option<Artifact>)

  datatype PartRef = PartRef(collection: Uuid, ordinal: nat)

  datatype ParseRun = ParseRun(validated: bool, hash: nat, accepted: nat, part: Option<PartRef>)

  datatype Part = Part(scope: Scope, artifact: Artifact, factCount: nat)

  datatype CollectionState = Open | Validated | Abandoned

  datatype ResultPart = ResultPart(ordinal: nat, scope: Scope, hash: nat, factCount: nat)

  datatype Collection = Collection(
    plan: Plan, state: CollectionState, accepted: nat, result: seq<ResultPart>)

  /** Everything the tables hold about one collection ID, and all parse runs of its source. */
  datatype Store = Store(
    id: Uuid,
    collection: Option<Collection>,
    attempts: seq<Attempt>,
    runs: map<Artifact, ParseRun>,
    parts: map<nat, Part>,
    facts: seq<StoredFact>)

  /** What an operator asks for and what the source answers to it. */
  datatype Request = Request(plan: Plan, admissible: bool, responses: seq<Response>)

  /** The source configuration is active and fits; the scopes are one to a hundred, all new. */
  predicate PlanValid(r: Request) {
    && r.admissible
    && 1 <= |r.plan.scopes| <= 100
    && |r.responses| == |r.plan.scopes|
    && forall i, j :: 0 <= i < j < |r.plan.scopes| ==> r.plan.scopes[i] != r.plan.scopes[j]
  }

  // ---------------------------------------------------------------- transactions

  function PlanCollection(s: Store, r: Request): Option<Store> {
    if !PlanValid(r) then None
    else if s.collection.Some? then
      if s.collection.value.plan == r.plan then Some(s) else None
    else Some(s.(collection := Some(Collection(r.plan, Open, 0, []))))
  }

  /** The column is a positive small integer. */
  const MAX_ATTEMPT := 32767

  function MaxOrdinal(attempts: seq<Attempt>): nat {
    if attempts == [] then 0
    else
      var rest, last := MaxOrdinal(attempts[..|attempts| - 1]), attempts[|attempts| - 1].ordinal;
      if rest > last then rest else last
  }

  function StartFetch(s: Store, ordinal: nat, scope: Scope): Store {
    s.(attempts := s.attempts + [Attempt(ordinal, scope, Started, None)])
  }

  /** The attempt that the same run started last. */
  function FinishFetch(s: Store, state: AttemptState, artifact: Option<Artifact>): Store
    requires s.attempts != []
  {
    var last := s.attempts[|s.attempts| - 1];
    s.(attempts := s.attempts[|s.attempts| - 1 := last.(state := state, artifact := artifact)])
  }

  predicate HasSource(s: Store, artifact: Artifact, scope: Scope) {
    exists i :: 0 <= i < |s.attempts| && s.attempts[i].state == Succeeded
                && s.attempts[i].artifact == Some(artifact) && s.attempts[i].scope == scope
  }

  function KeysOf(facts: seq<StoredFact>): set<nat> {
    set f | f in facts :: f.fact.key
  }

  function Tagged(part: nat, facts: seq<Fact>): seq<StoredFact> {
    seq(|facts|, i requires 0 <= i < |facts| => StoredFact(part, facts[i]))
  }

  /** Inserting the rows one by one never meets a unique key that is taken. */
  predicate KeysFree(stored: seq<StoredFact>, part: nat, facts: seq<Fact>) {
    if facts == [] then true
    else
      var front, last := facts[..|facts| - 1], facts[|facts| - 1];
      KeysFree(stored, part, front) && last.key !in KeysOf(stored + Tagged(part, front))
  }

  /**
   * One transaction: create or replay a part, then its facts; None is a rolled-back error. A
   * replay answers before any identity is resolved.
   */
  function PersistPart(s: Store, ordinal: nat, scope: Scope, artifact: Artifact, parsed: Parsed)
    : Option<Store>
    requires s.collection.Some?
  {
    if parsed.inputCount != |parsed.facts| || !parsed.inScope then None
    else if ordinal < 1 || ordinal > |s.collection.value.plan.scopes| then None
    else if !HasSource(s, artifact, scope) then None
    else if artifact in s.runs then
      var run := s.runs[artifact];
      if run.validated && run.hash == parsed.hash && run.part == Some(PartRef(s.id, ordinal)) then
        Some(s)
      else None
    else if s.collection.value.state != Open then None
    else if ordinal in s.parts || exists o :: o in s.parts && s.parts[o].scope == scope then None
    else if !parsed.resolved || !KeysFree(s.facts, ordinal, parsed.facts) then None
    else
      Some(s.(
        runs := s.runs[artifact := ParseRun(true, parsed.hash, |parsed.facts|,
                                            Some(PartRef(s.id, ordinal)))],
        parts := s.parts[ordinal := Part(scope, artifact, |parsed.facts|)],
        facts := s.facts + Tagged(ordinal, parsed.facts)))
  }

  function CountOf(facts: seq<StoredFact>, part: nat): nat {
    if facts == [] then 0
    else CountOf(facts[..|facts| - 1], part)
         + (if facts[|facts| - 1].part == part then 1 else 0)
  }

  /** What completion demands of one part. */
  predicate PartReconciles(s: Store, o: nat)
    requires o in s.parts
  {
    var part := s.parts[o];
    && part.artifact in s.runs
    && s.runs[part.artifact].validated
    && HasSource(s, part.artifact, part.scope)
    && CountOf(s.facts, o) == part.factCount == s.runs[part.artifact].accepted
  }

  predicate Contiguous(s: Store)
    requires s.collection.Some?
  {
    var scopes := s.collection.value.plan.scopes;
    && (forall o :: o in s.parts ==> 1 <= o <= |scopes|)
    && (forall o: nat :: 1 <= o <= |scopes| ==>
          o in s.parts && s.parts[o].scope == scopes[o - 1])
  }

  /** The ordinals are exactly 1..n, in plan order, and every part reconciles. */
  predicate Reconciled(s: Store)
    requires s.collection.Some?
  {
    var scopes := s.collection.value.plan.scopes;
    Contiguous(s) && forall o: nat :: 1 <= o <= |scopes| ==> PartReconciles(s, o)
  }

  function AcceptedTo(facts: seq<StoredFact>, n: nat): nat {
    if n == 0 then 0 else AcceptedTo(facts, n - 1) + CountOf(facts, n)
  }

  function ResultTo(s: Store, n: nat): seq<ResultPart>
    requires forall o: nat :: 1 <= o <= n ==> o in s.parts && s.parts[o].artifact in s.runs
  {
    if n == 0 then []
    else
      ResultTo(s, n - 1)
      + [ResultPart(n, s.parts[n].scope, s.runs[s.parts[n].artifact].hash, CountOf(s.facts, n))]
  }

  function CompleteCollection(s: Store): Option<Store>
    requires s.collection.Some?
  {
    var c := s.collection.value;
    if c.state == Validated then Some(s)
    else if c.state != Open then None
    else if !Reconciled(s) then None
    else
      var n := |c.plan.scopes|;
      assert forall o: nat :: 1 <= o <= n ==> o in s.parts && PartReconciles(s, o);
      Some(s.(collection := Some(c.(
        state := Validated, accepted := AcceptedTo(s.facts, n), result := ResultTo(s, n)))))
  }

  // ---------------------------------------------------------------- one run

  datatype Outcome =
    | Ingested(accepted: nat)
    | Crashed | PlanRejected | AttemptRejected
    | FetchFailed | FetchPersistenceFailed | ParseFailed | PartPersistenceFailed
    | CompletionFailed

  /** How many transactions the process survives, and which partitions' transport breaks. */
  datatype Fate = Fate(budget: nat, drops: set<nat>)

  function Ingest(s: Store, r: Request, fate: Fate): (Store, Outcome) {
    if fate.budget == 0 then (s, Crashed)
    else
      match PlanCollection(s, r)
      case None => (s, PlanRejected)
      case Some(planned) =>
        Partitions(planned, r, fate.drops, 1, MaxOrdinal(planned.attempts) + 1, fate.budget - 1, 0)
  }

  /** The partition loop from partition k on, `budget` transactions before the process stops. */
  function Partitions(
    s: Store, r: Request, drops: set<nat>, k: nat, next: nat, budget: nat, accepted: nat)
    : (Store, Outcome)
    requires PlanValid(r) && s.collection.Some? && k >= 1 && next >= 1
    decreases |r.plan.scopes| + 1 - k
  {
    if k > |r.plan.scopes| then
      if budget == 0 then (s, Crashed)
      else
        match CompleteCollection(s)
        case None => (s, CompletionFailed)
        case Some(done) => (done, Ingested(accepted))
    else
      var (after, stop) := Partition(s, r, k in drops, k, next + k - 1, budget);
      if stop.Some? then (after, stop.value)
      else
        Partitions(after, r, drops, k + 1, next, budget - 3, accepted + |RowsOf(r, k).facts|)
  }

  function ResponseTo(r: Request, k: nat): Response {
    if 1 <= k <= |r.responses| then r.responses[k - 1] else Unreachable
  }

  /** The parsed rows of partition k; a placeholder that persists nowhere when there are none. */
  function RowsOf(r: Request, k: nat): Parsed {
    var response := ResponseTo(r, k);
    if response.Fetched? && response.parsed.Some? then response.parsed.value
    else Parsed(0, 0, [], false, false)
  }

  function ScopeOf(r: Request, k: nat): Scope {
    if 1 <= k <= |r.plan.scopes| then r.plan.scopes[k - 1] else 0
  }

  function ArtifactOf(r: Request, k: nat): Artifact {
    var response := ResponseTo(r, k);
    Artifact(ScopeOf(r, k), if response.Fetched? then response.manifest else 0)
  }

  /** One iteration: start, fetch, finish, parse, persist, and why it stopped if it did. */
  function Partition(s: Store, r: Request, dropped: bool, k: nat, ordinal: nat, budget: nat)
    : (result: (Store, Option<Outcome>))
    requires s.collection.Some?
    ensures result.0.collection == s.collection
    ensures result.1.None? ==> budget >= 3
  {
    var response := ResponseTo(r, k);
    if budget == 0 then (s, Some(Crashed))
    else if ordinal > MAX_ATTEMPT then (s, Some(AttemptRejected))
    else
      var started := StartFetch(s, ordinal, ScopeOf(r, k));
      if budget == 1 then (started, Some(Crashed))
      else if dropped || response.Unreachable? then
        (FinishFetch(started, Failed, None), Some(FetchFailed))
      else if response.Unreconciled? then (started, Some(FetchPersistenceFailed))
      else
        var fetched := FinishFetch(started, Succeeded, Some(ArtifactOf(r, k)));
        if response.parsed.None? then (fetched, Some(ParseFailed))
        else if budget == 2 then (fetched, Some(Crashed))
        else
          match PersistPart(fetched, k, ScopeOf(r, k), ArtifactOf(r, k), RowsOf(r, k))
          case None => (fetched, Some(PartPersistenceFailed))
          case Some(persisted) => (persisted, None)
  }

  lemma PartitionsStep(
    s: Store, r: Request, drops: set<nat>, k: nat, next: nat, budget: nat, accepted: nat)
    requires PlanValid(r) && s.collection.Some? && 1 <= k <= |r.plan.scopes| && next >= 1
    ensures var (after, stop) := Partition(s, r, k in drops, k, next + k - 1, budget);
            Partitions(s, r, drops, k, next, budget, accepted)
            == if stop.Some? then (after, stop.value)
               else Partitions(after, r, drops, k + 1, next, budget - 3,
                               accepted + |RowsOf(r, k).facts|)
  {
  }

  // ---------------------------------------------------------------- the tables as an object

  lemma TaggedAppend(part: nat, facts: seq<Fact>, i: nat)
    requires i < |facts|
    ensures Tagged(part, facts[..i + 1]) == Tagged(part, facts[..i]) + [StoredFact(part, facts[i])]
  {
  }

  lemma {:induction false} KeysFreePrefix(
    stored: seq<StoredFact>, part: nat, facts: seq<Fact>, i: nat)
    requires i <= |facts| && KeysFree(stored, part, facts)
    ensures KeysFree(stored, part, facts[..i])
  {
    if i < |facts| {
      KeysFreePrefix(stored, part, facts[..|facts| - 1], i);
      assert facts[..|facts| - 1][..i] == facts[..i];
    } else {
      assert facts[..i] == facts;
    }
  }

  /** The keys of the new rows are all different and none is stored yet. */
  ghost predicate KeysNew(stored: seq<StoredFact>, facts: seq<Fact>) {
    && (forall i, j :: 0 <= i < j < |facts| ==> facts[i].key != facts[j].key)
    && (forall i, k :: 0 <= i < |facts| && 0 <= k < |stored| ==>
          facts[i].key != stored[k].fact.key)
  }

  lemma KeyStored(stored: seq<StoredFact>, part: nat, facts: seq<Fact>, key: nat)
    ensures key in KeysOf(stored + Tagged(part, facts))
       <==> || (exists k :: 0 <= k < |stored| && stored[k].fact.key == key)
            || (exists i :: 0 <= i < |facts| && facts[i].key == key)
  {
    var all := stored + Tagged(part, facts);
    if k :| 0 <= k < |stored| && stored[k].fact.key == key {
      assert all[k] in all;
    }
    if i :| 0 <= i < |facts| && facts[i].key == key {
      assert all[|stored| + i].fact == facts[i] && all[|stored| + i] in all;
    }
    if key in KeysOf(all) {
      var f :| f in all && f.fact.key == key;
      var n :| 0 <= n < |all| && all[n] == f;
      if n >= |stored| {
        assert facts[n - |stored|].key == key;
      }
    }
  }

  /** Inserting rows succeeds exactly when their keys are new. */
  lemma {:induction false} KeysFreeIff(stored: seq<StoredFact>, part: nat, facts: seq<Fact>)
    ensures KeysFree(stored, part, facts) <==> KeysNew(stored, facts)
  {
    if facts != [] {
      var front, last := facts[..|facts| - 1], facts[|facts| - 1];
      KeysFreeIff(stored, part, front);
      KeyStored(stored, part, front, last.key);
    }
  }

  class Tables {
    const id: Uuid
    var collection: Option<Collection>
    var attempts: seq<Attempt>
    var runs: map<Artifact, ParseRun>
    var parts: map<nat, Part>
    var facts: seq<StoredFact>

    constructor (id: Uuid, foreign: map<Artifact, ParseRun>)
      ensures State() == Store(id, None, [], foreign, map[], [])
    {
      this.id := id;
      collection, attempts, runs, parts, facts := None, [], foreign, map[], [];
    }

    function State(): Store
      reads this
    {
      Store(id, collection, attempts, runs, parts, facts)
    }

    method PlanFor(r: Request) returns (ok: bool)
      modifies this
      ensures ok == PlanCollection(old(State()), r).Some?
      ensures State() == if ok then PlanCollection(old(State()), r).value else old(State())
    {
      if !PlanValid(r) {
        return false;
      }
      if collection.Some? {
        return collection.value.plan == r.plan;
      }
      collection := Some(Collection(r.plan, Open, 0, []));
      ok := true;
    }

    /** The fact loop inside the transaction: it stops at the first key that is taken. */
    method CreateFacts(ordinal: nat, rows: seq<Fact>) returns (ok: bool, created: seq<StoredFact>)
      ensures ok == KeysFree(facts, ordinal, rows)
      ensures ok ==> created == facts + Tagged(ordinal, rows)
    {
      created := facts;
      for i := 0 to |rows|
        invariant KeysFree(facts, ordinal, rows[..i])
        invariant created == facts + Tagged(ordinal, rows[..i])
      {
        assert rows[..i + 1][..i] == rows[..i];
        if rows[i].key in KeysOf(created) {
          if KeysFree(facts, ordinal, rows) {
            KeysFreePrefix(facts, ordinal, rows, i + 1);
            assert false;
          }
          return false, created;
        }
        TaggedAppend(ordinal, rows, i);
        created := created + [StoredFact(ordinal, rows[i])];
      }
      assert rows[..|rows|] == rows;
      ok := true;
    }

    /** Nothing is assigned unless every check and every row succeeds. */
    method Persist(ordinal: nat, scope: Scope, artifact: Artifact, parsed: Parsed)
      returns (ok: bool)
      requires collection.Some?
      modifies this
      ensures ok == PersistPart(old(State()), ordinal, scope, artifact, parsed).Some?
      ensures State() == if ok then PersistPart(old(State()), ordinal, scope, artifact, parsed).value
                         else old(State())
    {
      if parsed.inputCount != |parsed.facts| || !parsed.inScope {
        return false;
      }
      if ordinal < 1 || ordinal > |collection.value.plan.scopes| {
        return false;
      }
      if !HasSource(State(), artifact, scope) {
        return false;
      }
      if artifact in runs {
        var run := runs[artifact];
        return run.validated && run.hash == parsed.hash && run.part == Some(PartRef(id, ordinal));
      }
      if collection.value.state != Open {
        return false;
      }
      if ordinal in parts || exists o :: o in parts && parts[o].scope == scope {
        return false;
      }
      var newKeys, created := CreateFacts(ordinal, parsed.facts);
      if !parsed.resolved || !newKeys {
        return false;
      }
      runs := runs[artifact := ParseRun(true, parsed.hash, |parsed.facts|,
                                        Some(PartRef(id, ordinal)))];
      parts := parts[ordinal := Part(scope, artifact, |parsed.facts|)];
      facts := created;
      ok := true;
    }

    /** The reconciliation loop accumulates the count and the result parts in order. */
    method Complete() returns (ok: bool)
      requires collection.Some?
      modifies this
      ensures ok == CompleteCollection(old(State())).Some?
      ensures State() == if ok then CompleteCollection(old(State())).value else old(State())
    {
      var c := collection.value;
      if c.state == Validated {
        return true;
      }
      if c.state != Open || !Contiguous(State()) {
        return false;
      }
      var n := |c.plan.scopes|;
      var tables := State();
      var accepted: nat, result: seq<ResultPart> := 0, [];
      for o: nat := 1 to n + 1
        invariant forall q: nat :: 1 <= q < o ==> q in tables.parts && PartReconciles(tables, q)
        invariant accepted == AcceptedTo(tables.facts, o - 1)
        invariant result == ResultTo(tables, o - 1)
      {
        assert o in tables.parts;
        if !PartReconciles(tables, o) {
          return false;
        }
        accepted := accepted + CountOf(facts, o);
        result := result + [ResultPart(o, parts[o].scope, runs[parts[o].artifact].hash,
                                       CountOf(facts, o))];
      }
      collection := Some(c.(state := Validated, accepted := accepted, result := result));
      ok := true;
    }

    /** One partition: two or three transactions and the calls between them. */
    method IngestPartition(r: Request, dropped: bool, k: nat, ordinal: nat, budget: nat)
      returns (stop: Option<Outcome>)
      requires collection.Some?
      modifies this
      ensures (State(), stop) == Partition(old(State()), r, dropped, k, ordinal, budget)
    {
      var response := ResponseTo(r, k);
      if budget == 0 {
        return Some(Crashed);
      }
      if ordinal > MAX_ATTEMPT {
        return Some(AttemptRejected);
      }
      attempts := attempts + [Attempt(ordinal, ScopeOf(r, k), Started, None)];
      if budget == 1 {
        return Some(Crashed);
      }
      var last := attempts[|attempts| - 1];
      if dropped || response.Unreachable? {
        attempts := attempts[|attempts| - 1 := last.(state := Failed, artifact := None)];
        return Some(FetchFailed);
      }
      if response.Unreconciled? {
        return Some(FetchPersistenceFailed);
      }
      attempts := attempts[|attempts| - 1 :=
                             last.(state := Succeeded, artifact := Some(ArtifactOf(r, k)))];
      if response.parsed.None? {
        return Some(ParseFailed);
      }
      if budget == 2 {
        return Some(Crashed);
      }
      var ok := Persist(k, ScopeOf(r, k), ArtifactOf(r, k), RowsOf(r, k));
      stop := if ok then None else Some(PartPersistenceFailed);
    }

    /** One turn of the loop, seen from the answer of the whole loop. */
    method Advance(
      r: Request, drops: set<nat>, k: nat, next: nat, budget: nat, accepted: nat,
      ghost answer: (Store, Outcome))
      returns (stop: Option<Outcome>, left: nat, total: nat)
      requires PlanValid(r) && collection.Some? && 1 <= k <= |r.plan.scopes| && next >= 1
      requires answer == Partitions(State(), r, drops, k, next, budget, accepted)
      modifies this
      ensures collection.Some?
      ensures stop.Some? ==> (State(), stop.value) == answer
      ensures stop.None? ==>
                answer == Partitions(State(), r, drops, k + 1, next, left, total)
    {
      hide Partitions, Partition, PlanValid;
      PartitionsStep(State(), r, drops, k, next, budget, accepted);
      left, total := 0, accepted + |RowsOf(r, k).facts|;
      stop := IngestPartition(r, k in drops, k, next + k - 1, budget);
      if stop.None? {
        left := budget - 3;
      }
    }

    /** The loop over the partitions and the completion after it. */
    method RunPartitions(
      r: Request, drops: set<nat>, next: nat, limit: nat, ghost answer: (Store, Outcome))
      returns (outcome: Outcome)
      requires PlanValid(r) && collection.Some? && next >= 1
      requires answer == Partitions(State(), r, drops, 1, next, limit, 0)
      modifies this
      ensures (State(), outcome) == answer
    {
      var budget: nat, accepted: nat, k: nat := limit, 0, 1;
      while k <= |r.plan.scopes|
        invariant 1 <= k <= |r.plan.scopes| + 1 && collection.Some?
        invariant answer == Partitions(State(), r, drops, k, next, budget, accepted)
      {
        var stop: Option<Outcome>;
        stop, budget, accepted := Advance(r, drops, k, next, budget, accepted, answer);
        if stop.Some? {
          return stop.value;
        }
        k := k + 1;
      }
      outcome := Finish(r, drops, next, budget, accepted);
    }

    /** After the last partition. */
    method Finish(r: Request, ghost drops: set<nat>, ghost next: nat, budget: nat, accepted: nat)
      returns (outcome: Outcome)
      requires PlanValid(r) && collection.Some? && next >= 1
      modifies this
      ensures (State(), outcome)
           == Partitions(old(State()), r, drops, |r.plan.scopes| + 1, next, budget, accepted)
    {
      if budget == 0 {
        return Crashed;
      }
      var completed := Complete();
      outcome := if completed then Ingested(accepted) else CompletionFailed;
    }

    /** The whole workflow: plan, one pass over the partitions, completion. */
    method Run(r: Request, fate: Fate) returns (outcome: Outcome)
      modifies this
      ensures (State(), outcome) == Ingest(old(State()), r, fate)
    {
      if fate.budget == 0 {
        return Crashed;
      }
      var planned := PlanFor(r);
      if !planned {
        return PlanRejected;
      }
      ghost var answer := Ingest(old(State()), r, fate);
      outcome := RunPartitions(r, fate.drops, MaxOrdinal(attempts) + 1, fate.budget - 1, answer);
    }
  }
}
