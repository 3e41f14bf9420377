/**
 * The publication transition services. One transaction is one step: the channel row is
 * locked for its whole length, and a refused transaction leaves the state as it was.
 */
module Channel {
  import opened Common
  import opened ActivationLog
  import opened ChannelSql
  import Reviews

  datatype Activation = Activation(event: Event, publisher: Uuid)

  /** The columns that the transition and sealing rules or the backup inventory read. */
  datatype Revision = Revision(
    sealed: bool, reviews: seq<Uuid>, generation: Uuid, factSet: string, copyRevision: Uuid,
    entryCount: int)

  datatype Request = Request(
    operationId: Uuid,
    operation: Operation,
    target: Option<Uuid>,
    expectedCurrent: Option<Uuid>,
    expectedVersion: int,
    publisher: Uuid,
    reason: string,
    evidence: string)

  datatype Refusal =
    | NegativeVersion | OperationConflict | Stale | InvalidOperation | InvalidWithdrawal
    | SameOrMissingTarget | TargetNotEligible | NeverCurrent | MalformedFields

  datatype Outcome = Refused(reason: Refusal) | Replayed(stored: Activation) | Applied(added: Activation)

  datatype Db = Db(
    kind: Kind,
    reviews: seq<Reviews.Decision>,
    revisions: map<Uuid, Revision>,
    version: int,
    current: Option<Uuid>,
    log: seq<Activation>)

  function Events(log: seq<Activation>): seq<Event> {
    seq(|log|, i requires 0 <= i < |log| => log[i].event)
  }

  lemma EventsAppend(log: seq<Activation>, a: Activation)
    ensures Events(log + [a]) == Events(log) + [a.event]
  {
  }

  function FindActivation(log: seq<Activation>, id: Uuid): (found: Option<Activation>)
    ensures found.Some? ==> found.value in log && found.value.event.id == id
    ensures found.None? ==> forall a :: a in log ==> a.event.id != id
  {
    if log == [] then None
    else if log[0].event.id == id then Some(log[0])
    else FindActivation(log[1..], id)
  }

  /** The row a request asks for. */
  function Candidate(r: Request): Activation {
    Activation(
      Event(r.operationId, r.operation, r.expectedVersion + 1, r.expectedCurrent, r.target,
            r.reason, r.evidence),
      r.publisher)
  }

  predicate Approved(reviews: seq<Reviews.Decision>, id: Uuid) {
    var d := Reviews.Lookup(reviews, id);
    d.Some? && d.value.verdict == Reviews.Approve
  }

  predicate NoneSuperseded(reviews: seq<Reviews.Decision>, ids: seq<Uuid>) {
    forall i :: 0 <= i < |ids| ==> !Reviews.IsSuperseded(reviews, ids[i])
  }

  predicate AllApproved(reviews: seq<Reviews.Decision>, ids: seq<Uuid>) {
    forall i :: 0 <= i < |ids| ==> Approved(reviews, ids[i])
  }

  /** The Python eligibility checks, which differ between the two services. */
  predicate Eligible(db: Db, operation: Operation, target: Uuid) {
    && target in db.revisions
    && var revision := db.revisions[target];
       && revision.sealed
       && match db.kind
          case Recent =>
            AllApproved(db.reviews, revision.reviews) && NoneSuperseded(db.reviews, revision.reviews)
          case Historical =>
            operation == Activate ==> NoneSuperseded(db.reviews, revision.reviews)
  }

  predicate PreviouslyCurrent(log: seq<Activation>, throughSequence: int, target: Uuid) {
    exists i :: 0 <= i < |log| && log[i].event.sequence <= throughSequence
                && (log[i].event.operation == Activate || log[i].event.operation == Rollback)
                && log[i].event.target == Some(target)
  }

  /** The service's decision on one request. */
  function Decide(db: Db, r: Request): Outcome {
    if r.expectedVersion < 0 then Refused(NegativeVersion)
    else
      var existing := FindActivation(db.log, r.operationId);
      if existing.Some? then
        if existing.value == Candidate(r) then Replayed(existing.value) else Refused(OperationConflict)
      else if db.version != r.expectedVersion || db.current != r.expectedCurrent then Refused(Stale)
      else if r.operation.Unknown? then Refused(InvalidOperation)
      else if r.operation == Withdraw && (r.target.Some? || db.current.None?) then
        Refused(InvalidWithdrawal)
      else if r.operation != Withdraw && (r.target.None? || r.target == db.current) then
        Refused(SameOrMissingTarget)
      else if r.operation != Withdraw && !Eligible(db, r.operation, r.target.value) then
        Refused(TargetNotEligible)
      else if r.operation == Rollback && !PreviouslyCurrent(db.log, r.expectedVersion, r.target.value) then
        Refused(NeverCurrent)
      else if !FieldsValid(Candidate(r).event) then Refused(MalformedFields)
      else Applied(Candidate(r))
  }

  function Commit(db: Db, o: Outcome): Db {
    match o
    case Applied(a) =>
      db.(version := db.version + 1, current := a.event.target, log := db.log + [a])
    case _ => db
  }

  // ---------------------------------------------------------------- the state invariant

  ghost predicate SealedReviewsApproved(db: Db) {
    forall id :: id in db.revisions && db.revisions[id].sealed ==>
      AllApproved(db.reviews, db.revisions[id].reviews)
  }

  /** What sealing fixes about a recent revision. */
  ghost predicate RecentShape(db: Db, revision: Revision) {
    && |revision.reviews| == 1
    && Reviews.Lookup(db.reviews, revision.reviews[0]).Some?
    && revision.generation
       == Reviews.Lookup(db.reviews, revision.reviews[0]).value.generation.parseRun
    && Sha256Text(revision.factSet)
    && revision.entryCount >= 1
  }

  ghost predicate SealedShape(db: Db) {
    forall id :: id in db.revisions && db.revisions[id].sealed && db.kind == Recent ==>
      RecentShape(db, db.revisions[id])
  }

  /** The unique key of a revision within its channel: fact-set hash and public copy. */
  predicate SameKey(a: Revision, b: Revision) {
    a.factSet == b.factSet && a.copyRevision == b.copyRevision
  }

  predicate KeyTaken(db: Db, revision: Revision) {
    exists id :: id in db.revisions && SameKey(db.revisions[id], revision)
  }

  ghost predicate KeysUnique(db: Db) {
    forall id, other :: id in db.revisions && other in db.revisions && id != other ==>
      !SameKey(db.revisions[id], db.revisions[other])
  }

  ghost predicate TargetsSealed(db: Db) {
    forall i :: 0 <= i < |db.log| && db.log[i].event.target.Some? ==>
      var target := db.log[i].event.target.value;
      target in db.revisions && db.revisions[target].sealed
  }

  ghost predicate Inv(db: Db) {
    && Reviews.Linear(db.reviews)
    && WellFormed(Events(db.log))
    && db.version == |db.log|
    && db.current == PointerAfter(Events(db.log))
    && SealedReviewsApproved(db)
    && SealedShape(db)
    && KeysUnique(db)
    && TargetsSealed(db)
  }

  /** Under the invariant the service and the abstract log rule agree on a rollback target. */
  lemma PreviouslyCurrentIsWasTarget(db: Db, target: Uuid)
    requires Inv(db)
    ensures PreviouslyCurrent(db.log, db.version, target) <==> WasTarget(Events(db.log), Some(target))
  {
    var es := Events(db.log);
    if WasTarget(es, Some(target)) {
      var j :| 0 <= j < |es| && es[j].target == Some(target);
      WellFormedFacts(es, j);
      assert db.log[j].event == es[j];
    }
    if PreviouslyCurrent(db.log, db.version, target) {
      var i :| 0 <= i < |db.log| && db.log[i].event.target == Some(target);
      assert es[i].target == Some(target);
    }
  }

  lemma NotFoundIsFresh(log: seq<Activation>, id: Uuid)
    requires FindActivation(log, id).None?
    ensures !HasId(Events(log), id)
  {
    forall j | 0 <= j < |log|
      ensures Events(log)[j].id != id
    {
      assert log[j] in log;
    }
  }

  lemma AppliedExtends(db: Db, r: Request)
    requires Inv(db) && Decide(db, r).Applied?
    ensures Extends(Events(db.log), Candidate(r).event)
  {
    var es, e := Events(db.log), Candidate(r).event;
    NotFoundIsFresh(db.log, r.operationId);
    if r.operation == Rollback {
      PreviouslyCurrentIsWasTarget(db, r.target.value);
    }
  }

  lemma TransitionKeepsInv(db: Db, r: Request)
    requires Inv(db)
    ensures Inv(Commit(db, Decide(db, r)))
  {
    var o := Decide(db, r);
    if o.Applied? {
      var a := Candidate(r);
      AppliedExtends(db, r);
      EventsAppend(db.log, a);
      WellFormedAppend(Events(db.log), a.event);
    }
  }

  // ---------------------------------------------------------------- service against triggers

  ghost function FactsOf(db: Db, target: Option<Uuid>): TargetFacts {
    if target.Some? && target.value in db.revisions then
      var revision := db.revisions[target.value];
      TargetFacts(true, revision.sealed,
                  AllApproved(db.reviews, revision.reviews)
                  && NoneSuperseded(db.reviews, revision.reviews))
    else TargetFacts(false, false, false)
  }

  ghost predicate GuardPasses(db: Db, a: Activation) {
    InsertGuard(db.kind, db.version, db.current, Events(db.log), Some(a.event.id), a.event,
                FactsOf(db, a.event.target))
  }

  lemma GuardRollbackClause(db: Db, e: Event)
    requires Inv(db) && e.sequence == db.version + 1 && e.target.Some?
    ensures (exists j :: 0 <= j < |Events(db.log)| && Events(db.log)[j].sequence < e.sequence
              && (Events(db.log)[j].operation == Activate || Events(db.log)[j].operation == Rollback)
              && Events(db.log)[j].target == e.target)
       <==> PreviouslyCurrent(db.log, db.version, e.target.value)
  {
    var es := Events(db.log);
    assert forall j :: 0 <= j < |es| ==> es[j] == db.log[j].event;
    if PreviouslyCurrent(db.log, db.version, e.target.value) {
      var i :| 0 <= i < |db.log| && db.log[i].event.sequence <= db.version
               && (db.log[i].event.operation == Activate || db.log[i].event.operation == Rollback)
               && db.log[i].event.target == e.target;
      assert es[i].sequence < e.sequence;
    }
  }

  /**
   * For an operation ID that is not stored yet, the Python checks accept a request exactly
   * when the insert trigger accepts its row and the column formats are valid.
   */
  lemma ServiceAgreesWithInsertGuard(db: Db, r: Request)
    requires Inv(db) && FindActivation(db.log, r.operationId).None?
    ensures Decide(db, r).Applied?
       <==> GuardPasses(db, Candidate(r)) && FieldsValid(Candidate(r).event)
  {
    var e := Candidate(r).event;
    if e.sequence == db.version + 1 && e.target.Some? {
      GuardRollbackClause(db, e);
    }
  }

  lemma PointerGuardPasses(db: Db, a: Activation)
    requires a.event.sequence == db.version + 1 && a.event.previous == db.current
    ensures PointerGuard(db.version, db.current, db.version + 1, a.event.target,
                         Some(a.event.id), Events(db.log + [a]))
  {
    EventsAppend(db.log, a);
    assert Events(db.log + [a])[|db.log|] == a.event;
  }

  lemma CommittedHistoryIsOrdered(db: Db)
    requires Inv(db)
    ensures SequencesDistinctPositive(Events(db.log))
    ensures OrderedHistory(Events(db.log), Events(db.log), db.version, db.current)
  {
    var es := Events(db.log);
    WellFormedIsContiguous(es);
    forall i | 0 <= i < |es|
      ensures es[i].sequence == i + 1
    {
      WellFormedFacts(es, i);
    }
  }

  /** The stored tables and the one transaction that moves the pointer. */
  class Service {
    const kind: Kind
    var reviews: seq<Reviews.Decision>
    var revisions: map<Uuid, Revision>
    var version: int
    var current: Option<Uuid>
    var log: seq<Activation>

    constructor (kind: Kind)
      ensures State() == Empty(kind) && Valid()
    {
      this.kind := kind;
      reviews, revisions, version, current, log := [], map[], 0, None, [];
      new;
      EmptyHoldsInv(kind);
    }

    function State(): Db
      reads this
    {
      Db(kind, reviews, revisions, version, current, log)
    }

    ghost predicate Valid()
      reads this
    {
      Inv(State())
    }

    /**
     * Checks, inserts the event, advances the pointer and runs the deferred check. The
     * assertions are the places where a trigger, the row count of the update or the deferred
     * check would abort the transaction; none of them ever does.
     */
    method Transition(r: Request) returns (outcome: Outcome)
      requires Valid()
      modifies this
      ensures Valid()
      ensures outcome == Decide(old(State()), r)
      ensures State() == Commit(old(State()), outcome)
    {
      ghost var before := State();
      TransitionKeepsInv(before, r);
      if r.expectedVersion < 0 {
        return Refused(NegativeVersion);
      }
      var existing := FindActivation(log, r.operationId);
      if existing.Some? {
        return if existing.value == Candidate(r) then Replayed(existing.value)
               else Refused(OperationConflict);
      }
      if version != r.expectedVersion || current != r.expectedCurrent {
        return Refused(Stale);
      }
      if r.operation.Unknown? {
        return Refused(InvalidOperation);
      }
      if r.operation == Withdraw {
        if r.target.Some? || current.None? {
          return Refused(InvalidWithdrawal);
        }
      } else {
        if r.target.None? || r.target == current {
          return Refused(SameOrMissingTarget);
        }
        if !Eligible(State(), r.operation, r.target.value) {
          return Refused(TargetNotEligible);
        }
        if r.operation == Rollback && !PreviouslyCurrent(log, r.expectedVersion, r.target.value) {
          return Refused(NeverCurrent);
        }
      }
      var activation := Candidate(r);
      if !FieldsValid(activation.event) {
        return Refused(MalformedFields);
      }
      ServiceAgreesWithInsertGuard(before, r);
      assert GuardPasses(before, activation);
      log := log + [activation];
      PointerGuardPasses(before, activation);
      assert PointerGuard(version, current, r.expectedVersion + 1, r.target,
                          Some(activation.event.id), Events(log));
      // The update is conditional on the pointer and version that the request expected.
      var updated := if current == r.expectedCurrent && version == r.expectedVersion then 1 else 0;
      assert updated == 1;
      current, version := r.target, r.expectedVersion + 1;
      CommittedHistoryIsOrdered(State());
      var consistent := AssertChannelState(Events(log), version, current);
      assert consistent;
      outcome := Applied(activation);
    }

    /** The review service on the same tables. */
    method RecordReview(candidate: Reviews.Decision, admissible: bool)
      returns (outcome: Reviews.RecordOutcome)
      requires Valid()
      modifies this
      ensures Valid()
      ensures outcome == Reviews.Decide(old(reviews), candidate, admissible)
      ensures State() == Apply(old(State()), Review(candidate, admissible))
    {
      StepKeepsInv(State(), Review(candidate, admissible));
      outcome := Reviews.Decide(reviews, candidate, admissible);
      if outcome == Reviews.Recorded {
        reviews := reviews + [candidate];
      }
    }

    /**
     * The sealing services: a revision is written and sealed in one transaction, unless a row
     * with the same fact set and public copy exists; that row is the answer if it is sealed
     * and agrees in every column.
     */
    method SealRevision(id: Uuid, revision: Revision)
      returns (outcome: SealOutcome, stored: Option<Uuid>)
      requires Valid()
      modifies this
      ensures Valid()
      ensures outcome == SealDecision(old(State()), id, revision)
      ensures State() == Apply(old(State()), Seal(id, revision))
      ensures outcome == Sealed ==> stored == Some(id) && State().revisions[id].sealed
      ensures outcome == SealReplayed ==>
                && stored.Some? && stored.value in old(revisions)
                && old(revisions)[stored.value] == revision.(sealed := true)
    {
      StepKeepsInv(State(), Seal(id, revision));
      if !SealAllowed(State(), revision) {
        return SealRefused, None;
      }
      if KeyTaken(State(), revision) {
        var existing :| existing in revisions && SameKey(revisions[existing], revision);
        OneRowPerKey(State(), existing, revision);
        if revisions[existing] == revision.(sealed := true) {
          return SealReplayed, Some(existing);
        }
        return SealConflict, None;
      }
      if id in revisions {
        return SealRefused, None;
      }
      revisions := revisions[id := revision.(sealed := true)];
      outcome, stored := Sealed, Some(id);
    }
  }

  // ---------------------------------------------------------------- whole runs

  datatype Step =
    | Review(candidate: Reviews.Decision, admissible: bool)
    | Draft(draftId: Uuid, draft: Revision)
    | Seal(revisionId: Uuid, revision: Revision)
    | Submit(request: Request)

  function Empty(kind: Kind): Db {
    Db(kind, [], map[], 0, None, [])
  }

  lemma EmptyHoldsInv(kind: Kind)
    ensures Inv(Empty(kind))
  {
    assert forall g :: Reviews.OfGeneration([], g) == [];
  }

  /** A decision that the sealing services take: the approving tail of its generation. */
  predicate SealableReview(reviews: seq<Reviews.Decision>, id: Uuid) {
    var d := Reviews.Lookup(reviews, id);
    && d.Some?
    && d.value.verdict == Reviews.Approve
    && Reviews.Tails(Reviews.OfGeneration(reviews, d.value.generation)) == [d.value]
  }

  predicate SealAllowed(db: Db, revision: Revision) {
    && (forall i :: 0 <= i < |revision.reviews| ==> SealableReview(db.reviews, revision.reviews[i]))
    && match db.kind
       case Recent =>
         && |revision.reviews| == 1
         && revision.generation
            == Reviews.Lookup(db.reviews, revision.reviews[0]).value.generation.parseRun
         && Sha256Text(revision.factSet)
         && revision.entryCount >= 1
       case Historical =>
         && |revision.reviews| == 3
         && revision.reviews[0] != revision.reviews[1]
         && revision.reviews[0] != revision.reviews[2]
         && revision.reviews[1] != revision.reviews[2]
  }

  datatype SealOutcome = Sealed | SealReplayed | SealConflict | SealRefused

  function SealDecision(db: Db, id: Uuid, revision: Revision): SealOutcome {
    if !SealAllowed(db, revision) then SealRefused
    else if KeyTaken(db, revision) then
      if exists other :: other in db.revisions
                         && db.revisions[other] == revision.(sealed := true) then SealReplayed
      else SealConflict
    else if id in db.revisions then SealRefused
    else Sealed
  }

  lemma OneRowPerKey(db: Db, id: Uuid, revision: Revision)
    requires KeysUnique(db) && id in db.revisions && SameKey(db.revisions[id], revision)
    ensures (exists other :: other in db.revisions
                             && db.revisions[other] == revision.(sealed := true))
       <==> db.revisions[id] == revision.(sealed := true)
  {
    if other :| other in db.revisions && db.revisions[other] == revision.(sealed := true) {
      assert SameKey(db.revisions[other], revision);
    }
  }

  function Apply(db: Db, step: Step): Db {
    match step
    case Review(candidate, admissible) =>
      db.(reviews := Reviews.Record(db.reviews, candidate, admissible))
    case Draft(id, revision) =>
      if id in db.revisions || KeyTaken(db, revision) then db
      else db.(revisions := db.revisions[id := revision.(sealed := false)])
    case Seal(id, revision) =>
      if SealDecision(db, id, revision) == Sealed then
        db.(revisions := db.revisions[id := revision.(sealed := true)])
      else db
    case Submit(r) => Commit(db, Decide(db, r))
  }

  function Run(db: Db, steps: seq<Step>): Db
    decreases |steps|
  {
    if steps == [] then db else Run(Apply(db, steps[0]), steps[1..])
  }

  lemma {:induction false} LookupStable(
    rows: seq<Reviews.Decision>, more: seq<Reviews.Decision>, id: Uuid)
    requires Reviews.Lookup(rows, id).Some?
    ensures Reviews.Lookup(rows + more, id) == Reviews.Lookup(rows, id)
  {
    if rows[0].id != id {
      LookupStable(rows[1..], more, id);
      assert (rows + more)[1..] == rows[1..] + more;
    }
  }

  /** A new row with a free key; sealed only if its reviews and shape allow it. */
  lemma InsertKeepsInv(db: Db, id: Uuid, row: Revision)
    requires Inv(db) && id !in db.revisions && !KeyTaken(db, row)
    requires row.sealed ==> SealAllowed(db, row)
    ensures Inv(db.(revisions := db.revisions[id := row]))
  {
  }

  lemma StepKeepsInv(db: Db, step: Step)
    requires Inv(db)
    ensures Inv(Apply(db, step))
  {
    match step
    case Review(candidate, admissible) =>
      Reviews.RecordKeepsLinear(db.reviews, candidate, admissible);
      forall id | Reviews.Lookup(db.reviews, id).Some?
        ensures Reviews.Lookup(Apply(db, step).reviews, id) == Reviews.Lookup(db.reviews, id)
      {
        LookupStable(db.reviews, [candidate], id);
      }
    case Draft(id, revision) =>
      if id !in db.revisions && !KeyTaken(db, revision) {
        InsertKeepsInv(db, id, revision.(sealed := false));
      }
    case Seal(id, revision) =>
      if SealDecision(db, id, revision) == Sealed {
        InsertKeepsInv(db, id, revision.(sealed := true));
      }
    case Submit(r) => TransitionKeepsInv(db, r);
  }

  lemma {:induction false} RunKeepsInv(db: Db, steps: seq<Step>)
    requires Inv(db)
    ensures Inv(Run(db, steps))
    decreases |steps|
  {
    if steps != [] {
      StepKeepsInv(db, steps[0]);
      RunKeepsInv(Apply(db, steps[0]), steps[1..]);
    }
  }

  /** What no step can undo. */
  ghost predicate Later(db: Db, after: Db) {
    && after.kind == db.kind
    && db.log <= after.log
    && (forall id :: id in db.revisions ==>
          id in after.revisions && after.revisions[id] == db.revisions[id])
    && (forall id :: Reviews.IsSuperseded(db.reviews, id) ==> Reviews.IsSuperseded(after.reviews, id))
  }

  lemma StepIsLater(db: Db, step: Step)
    ensures Later(db, Apply(db, step))
  {
    if step.Review? {
      forall id | Reviews.IsSuperseded(db.reviews, id)
        ensures Reviews.IsSuperseded(Apply(db, step).reviews, id)
      {
        Reviews.SupersededForever(db.reviews, step.candidate, step.admissible, id);
      }
    }
  }

  lemma {:induction false} RunIsLater(db: Db, steps: seq<Step>)
    ensures Later(db, Run(db, steps))
    decreases |steps|
  {
    if steps != [] {
      StepIsLater(db, steps[0]);
      RunIsLater(Apply(db, steps[0]), steps[1..]);
    }
  }

  // ---------------------------------------------------------------- safety over whole runs

  ghost predicate Revoked(db: Db, id: Uuid) {
    && id in db.revisions
    && exists i :: 0 <= i < |db.revisions[id].reviews|
                   && Reviews.IsSuperseded(db.reviews, db.revisions[id].reviews[i])
  }

  lemma RevokedStays(db: Db, after: Db, id: Uuid)
    requires Later(db, after) && Revoked(db, id)
    ensures Revoked(after, id)
  {
    var i :| 0 <= i < |db.revisions[id].reviews|
             && Reviews.IsSuperseded(db.reviews, db.revisions[id].reviews[i]);
    assert after.revisions[id].reviews[i] == db.revisions[id].reviews[i];
  }

  /** The operations that can never make a revoked revision current. */
  ghost predicate Barred(kind: Kind, operation: Operation) {
    operation == Activate || (kind == Recent && operation == Rollback)
  }

  /**
   * Once a review behind a revision is superseded, no later event of a barred operation
   * targets it: never again in the recent channel, only by rollback in the historical one.
   */
  lemma {:induction false} RevokedNeverActivated(db: Db, steps: seq<Step>, id: Uuid, i: nat)
    requires Revoked(db, id)
    requires |db.log| <= i < |Run(db, steps).log|
    requires Barred(db.kind, Run(db, steps).log[i].event.operation)
    ensures Run(db, steps).log[i].event.target != Some(id)
    decreases |steps|
  {
    if steps != [] {
      var next := Apply(db, steps[0]);
      StepIsLater(db, steps[0]);
      RevokedStays(db, next, id);
      RunIsLater(next, steps[1..]);
      if i < |next.log| {
        assert Run(db, steps).log[i] == next.log[i];
      } else {
        RevokedNeverActivated(next, steps[1..], id, i);
      }
    }
  }

  lemma EarlierTargetIsSealed(db: Db, target: Uuid)
    requires Inv(db) && WasTarget(Events(db.log), Some(target))
    ensures target in db.revisions && db.revisions[target].sealed
  {
    var j :| 0 <= j < |Events(db.log)| && Events(db.log)[j].target == Some(target);
    assert db.log[j].event.target == Some(target);
  }

  /**
   * In the historical channel a well-formed, fresh, timely rollback is applied exactly when
   * its target is an earlier target other than the current one, revoked or not.
   */
  lemma HistoricalRollbackReach(db: Db, r: Request)
    requires Inv(db) && db.kind == Historical
    requires r.operation == Rollback && FieldsValid(Candidate(r).event)
    requires FindActivation(db.log, r.operationId).None?
    requires r.expectedVersion == db.version && r.expectedCurrent == db.current
    ensures Decide(db, r).Applied?
       <==> r.target != db.current && WasTarget(Events(db.log), r.target)
  {
    if r.target.Some? {
      PreviouslyCurrentIsWasTarget(db, r.target.value);
      if WasTarget(Events(db.log), r.target) {
        EarlierTargetIsSealed(db, r.target.value);
      }
    }
  }

  // ---------------------------------------------------------------- who may be applied

  /** The decision approves and nobody has superseded it. */
  ghost predicate CurrentApproval(reviews: seq<Reviews.Decision>, id: Uuid) {
    && (exists d :: d in reviews && d.id == id && d.verdict == Reviews.Approve)
    && forall e :: e in reviews ==> e.supersedes != Some(id)
  }

  lemma ApprovedIff(reviews: seq<Reviews.Decision>, id: Uuid)
    requires Reviews.DistinctIds(reviews)
    ensures Approved(reviews, id)
       <==> exists d :: d in reviews && d.id == id && d.verdict == Reviews.Approve
    ensures Reviews.IsSuperseded(reviews, id)
       <==> exists e :: e in reviews && e.supersedes == Some(id)
  {
    Reviews.SupersededIff(reviews, id);
    if d :| d in reviews && d.id == id && d.verdict == Reviews.Approve {
      Reviews.OneRowPerId(reviews, d);
    }
  }

  /** A sealed revision all of whose reviews are current approvals. */
  ghost predicate Publishable(db: Db, target: Uuid) {
    && target in db.revisions && db.revisions[target].sealed
    && forall i :: 0 <= i < |db.revisions[target].reviews| ==>
         CurrentApproval(db.reviews, db.revisions[target].reviews[i])
  }

  ghost predicate WasCurrent(db: Db, target: Uuid) {
    exists i :: 0 <= i < |db.log| && db.log[i].event.target == Some(target)
  }

  lemma EligibleIff(db: Db, operation: Operation, target: Uuid)
    requires Inv(db)
    ensures Eligible(db, operation, target)
       <==> if db.kind == Recent || operation == Activate then Publishable(db, target)
            else target in db.revisions && db.revisions[target].sealed
  {
    if target in db.revisions && db.revisions[target].sealed {
      forall i | 0 <= i < |db.revisions[target].reviews|
        ensures Approved(db.reviews, db.revisions[target].reviews[i])
        ensures CurrentApproval(db.reviews, db.revisions[target].reviews[i])
           <==> !Reviews.IsSuperseded(db.reviews, db.revisions[target].reviews[i])
      {
        ApprovedIff(db.reviews, db.revisions[target].reviews[i]);
      }
    }
  }

  /** What the operations demand of the target and of the pointer. */
  ghost predicate Permitted(db: Db, r: Request) {
    match r.operation
    case Withdraw => r.target.None? && db.current.Some?
    case Activate =>
      r.target.Some? && r.target != db.current && Publishable(db, r.target.value)
    case Rollback =>
      && r.target.Some? && r.target != db.current && WasCurrent(db, r.target.value)
      && (db.kind == Recent ==> Publishable(db, r.target.value))
    case Unknown(_) => false
  }

  lemma WasCurrentIff(db: Db, target: Uuid)
    requires Inv(db)
    ensures WasCurrent(db, target) <==> PreviouslyCurrent(db.log, db.version, target)
    ensures WasCurrent(db, target) ==> target in db.revisions && db.revisions[target].sealed
  {
    PreviouslyCurrentIsWasTarget(db, target);
    if i :| 0 <= i < |db.log| && db.log[i].event.target == Some(target) {
      assert Events(db.log)[i].target == Some(target);
    }
    if WasTarget(Events(db.log), Some(target)) {
      EarlierTargetIsSealed(db, target);
    }
  }

  /**
   * A transition is applied exactly when its operation ID is new, it expects the version and
   * the pointer as they are, its texts are well formed, and the operation is permitted.
   */
  lemma AppliedIff(db: Db, r: Request)
    requires Inv(db)
    ensures Decide(db, r).Applied?
       <==> && !Stored(db.log, r.operationId)
            && r.expectedVersion == |db.log| && r.expectedCurrent == db.current
            && ReasonCode(r.reason) && Sha256Text(r.evidence)
            && Permitted(db, r)
  {
    StoredIffFound(db.log, r.operationId);
    if r.target.Some? {
      EligibleIff(db, r.operation, r.target.value);
      WasCurrentIff(db, r.target.value);
    }
  }

  lemma StoredIffFound(log: seq<Activation>, id: Uuid)
    ensures Stored(log, id) <==> FindActivation(log, id).Some?
  {
  }

  /** What the insert trigger demands of the operation, the target and the pointer. */
  ghost predicate Admitted(db: Db, e: Event) {
    match e.operation
    case Withdraw => e.target.None? && e.previous.Some?
    case Activate =>
      e.target.Some? && e.target != e.previous && Publishable(db, e.target.value)
    case Rollback =>
      && e.target.Some? && e.target != e.previous && WasCurrent(db, e.target.value)
      && (db.kind == Recent ==> Publishable(db, e.target.value))
    case Unknown(_) => false
  }

  lemma TargetFactsMean(db: Db, target: Uuid)
    requires Inv(db)
    ensures var facts := FactsOf(db, Some(target));
            facts.found && facts.sealed && facts.approvedAndCurrent <==> Publishable(db, target)
  {
    if target in db.revisions {
      forall i | 0 <= i < |db.revisions[target].reviews|
        ensures Approved(db.reviews, db.revisions[target].reviews[i])
                && !Reviews.IsSuperseded(db.reviews, db.revisions[target].reviews[i])
           <==> CurrentApproval(db.reviews, db.revisions[target].reviews[i])
      {
        ApprovedIff(db.reviews, db.revisions[target].reviews[i]);
      }
    }
  }

  /** The insert trigger admits a row exactly with its own token, in its place, if permitted. */
  lemma InsertGuardMeans(db: Db, capability: Option<Uuid>, e: Event)
    requires Inv(db)
    ensures InsertGuard(db.kind, db.version, db.current, Events(db.log), capability, e,
                        FactsOf(db, e.target))
       <==> && capability == Some(e.id)
            && e.sequence == |db.log| + 1 && e.previous == db.current
            && Admitted(db, e)
  {
    hide Publishable, WasCurrent;
    if e.target.Some? && e.sequence == db.version + 1 {
      TargetFactsMean(db, e.target.value);
      WasCurrentIff(db, e.target.value);
      GuardRollbackClause(db, e);
    }
  }

  /** After an insert the update trigger admits one update: that of the inserted row. */
  lemma PointerGuardMeans(
    db: Db, a: Activation, capability: Option<Uuid>, newVersion: int, newCurrent: Option<Uuid>)
    requires Inv(db) && !Stored(db.log, a.event.id)
    requires a.event.sequence == db.version + 1 && a.event.previous == db.current
    ensures PointerGuard(db.version, db.current, newVersion, newCurrent, capability,
                         Events(db.log + [a]))
       <==> && capability == Some(a.event.id)
            && newVersion == |db.log| + 1 && newCurrent == a.event.target
  {
    var all := Events(db.log + [a]);
    EventsAppend(db.log, a);
    assert all[|db.log|] == a.event;
    forall j | 0 <= j < |db.log|
      ensures all[j].sequence <= db.version
    {
      WellFormedFacts(Events(db.log), j);
    }
  }

  // ---------------------------------------------------------------- who may be sealed

  /** What the sealing services demand of a revision. */
  ghost predicate Supported(db: Db, revision: Revision) {
    && (forall i :: 0 <= i < |revision.reviews| ==> CurrentApproval(db.reviews, revision.reviews[i]))
    && match db.kind
       case Recent =>
         && |revision.reviews| == 1
         && (exists d :: d in db.reviews && d.id == revision.reviews[0]
                         && d.generation.parseRun == revision.generation)
         && Sha256Text(revision.factSet)
         && revision.entryCount >= 1
       case Historical =>
         && |revision.reviews| == 3
         && forall i, j :: 0 <= i < j < 3 ==> revision.reviews[i] != revision.reviews[j]
  }

  lemma SealableIff(reviews: seq<Reviews.Decision>, id: Uuid)
    requires Reviews.Linear(reviews)
    ensures SealableReview(reviews, id) <==> CurrentApproval(reviews, id)
  {
    ApprovedIff(reviews, id);
    if d :| d in reviews && d.id == id {
      Reviews.OneRowPerId(reviews, d);
      Reviews.NotSupersededIffLatest(reviews, d);
    }
  }

  lemma ParseRunIff(reviews: seq<Reviews.Decision>, id: Uuid, parseRun: Uuid)
    requires Reviews.Linear(reviews) && SealableReview(reviews, id)
    ensures Reviews.Lookup(reviews, id).Some?
    ensures Reviews.Lookup(reviews, id).value.generation.parseRun == parseRun
       <==> exists d :: d in reviews && d.id == id && d.generation.parseRun == parseRun
  {
    Reviews.OneRowPerId(reviews, Reviews.Lookup(reviews, id).value);
  }

  lemma SealAllowedIff(db: Db, revision: Revision)
    requires Reviews.Linear(db.reviews)
    ensures SealAllowed(db, revision) <==> Supported(db, revision)
  {
    hide SealableReview, CurrentApproval, Reviews.Linear;
    forall i | 0 <= i < |revision.reviews|
      ensures SealableReview(db.reviews, revision.reviews[i])
         <==> CurrentApproval(db.reviews, revision.reviews[i])
    {
      SealableIff(db.reviews, revision.reviews[i]);
    }
    if |revision.reviews| == 1 && SealableReview(db.reviews, revision.reviews[0]) {
      ParseRunIff(db.reviews, revision.reviews[0], revision.generation);
    }
  }

  ghost predicate SameRow(stored: Revision, revision: Revision) {
    && stored.sealed
    && stored.reviews == revision.reviews && stored.generation == revision.generation
    && stored.factSet == revision.factSet && stored.copyRevision == revision.copyRevision
    && stored.entryCount == revision.entryCount
  }

  ghost predicate KeyStored(db: Db, revision: Revision) {
    exists id :: && id in db.revisions && db.revisions[id].factSet == revision.factSet
                 && db.revisions[id].copyRevision == revision.copyRevision
  }

  ghost predicate RowStored(db: Db, revision: Revision) {
    exists id :: id in db.revisions && SameRow(db.revisions[id], revision)
  }

  /** When a revision is sealed, found again, in conflict or refused. */
  lemma SealOutcomes(db: Db, id: Uuid, revision: Revision)
    requires Inv(db)
    ensures var outcome := SealDecision(db, id, revision);
            && (outcome == Sealed
                <==> Supported(db, revision) && !KeyStored(db, revision) && id !in db.revisions)
            && (outcome == SealReplayed <==> Supported(db, revision) && RowStored(db, revision))
            && (outcome == SealConflict
                <==> Supported(db, revision) && KeyStored(db, revision)
                     && !RowStored(db, revision))
  {
    SealAllowedIff(db, revision);
    StoredRowIff(db, revision);
    StoredKeyIff(db, revision);
  }

  /** An unsealed row is stored unless its ID or its key is taken. */
  lemma DraftIsStored(db: Db, id: Uuid, draft: Revision)
    ensures var after := Apply(db, Draft(id, draft));
            && after == db.(revisions := after.revisions)
            && (forall other :: other in db.revisions ==>
                  other in after.revisions && after.revisions[other] == db.revisions[other])
            && (forall other :: other in after.revisions ==> other in db.revisions || other == id)
            && (id in after.revisions
                <==> id in db.revisions || !KeyStored(db, draft))
            && (id in after.revisions && id !in db.revisions ==>
                  after.revisions[id] == draft.(sealed := false))
  {
    StoredKeyIff(db, draft);
  }

  lemma StoredKeyIff(db: Db, revision: Revision)
    ensures KeyStored(db, revision) <==> KeyTaken(db, revision)
    ensures RowStored(db, revision) ==> KeyStored(db, revision)
  {
    if other :| other in db.revisions && SameKey(db.revisions[other], revision) {
      assert db.revisions[other].factSet == revision.factSet;
    }
    if other :| other in db.revisions && SameRow(db.revisions[other], revision) {
      assert db.revisions[other].factSet == revision.factSet;
    }
  }

  lemma StoredRowIff(db: Db, revision: Revision)
    ensures RowStored(db, revision)
       <==> exists other :: other in db.revisions
                            && db.revisions[other] == revision.(sealed := true)
  {
    if other :| other in db.revisions && SameRow(db.revisions[other], revision) {
      assert db.revisions[other] == revision.(sealed := true);
    }
    if other :| other in db.revisions && db.revisions[other] == revision.(sealed := true) {
      assert SameRow(db.revisions[other], revision);
    }
  }

  // ---------------------------------------------------------------- exactly once

  lemma {:induction false} FindByDistinctId(log: seq<Activation>, i: nat)
    requires i < |log|
    requires forall j :: 0 <= j < i ==> log[j].event.id != log[i].event.id
    ensures FindActivation(log, log[i].event.id) == Some(log[i])
  {
    if i > 0 {
      assert log[1..][i - 1] == log[i];
      forall j | 0 <= j < i - 1
        ensures log[1..][j].event.id != log[i].event.id
      {
        assert log[1..][j] == log[j + 1];
      }
      FindByDistinctId(log[1..], i - 1);
    }
  }

  lemma StoredIsFound(db: Db, i: nat)
    requires Inv(db) && i < |db.log|
    ensures FindActivation(db.log, db.log[i].event.id) == Some(db.log[i])
  {
    var es := Events(db.log);
    WellFormedFacts(es, i);
    forall j | 0 <= j < i
      ensures db.log[j].event.id != db.log[i].event.id
    {
      assert es[j].id != es[i].id;
    }
    FindByDistinctId(db.log, i);
  }

  lemma StoredIsReplayed(db: Db, r: Request, i: nat)
    requires Inv(db) && i < |db.log| && db.log[i] == Candidate(r) && r.expectedVersion >= 0
    ensures Decide(db, r) == Replayed(Candidate(r))
    ensures Apply(db, Submit(r)) == db
  {
    StoredIsFound(db, i);
  }

  /** A stored row with every field as the request gives it. */
  predicate Records(a: Activation, r: Request) {
    && a.event.id == r.operationId
    && a.event.operation == r.operation
    && a.event.sequence == r.expectedVersion + 1
    && a.event.previous == r.expectedCurrent
    && a.event.target == r.target
    && a.event.reason == r.reason
    && a.event.evidence == r.evidence
    && a.publisher == r.publisher
  }

  predicate Stored(log: seq<Activation>, id: Uuid) {
    exists i :: 0 <= i < |log| && log[i].event.id == id
  }

  lemma StoredRowDecides(db: Db, r: Request, i: nat)
    requires Inv(db) && r.expectedVersion >= 0
    requires i < |db.log| && db.log[i].event.id == r.operationId
    ensures Decide(db, r) == if Records(db.log[i], r) then Replayed(db.log[i])
                             else Refused(OperationConflict)
  {
    StoredIsFound(db, i);
  }

  /**
   * A request is answered from the log exactly when its operation ID is stored: with the
   * stored row if that agrees in every field, with a conflict if it differs in any.
   */
  lemma StoredIdDecides(db: Db, r: Request)
    requires Inv(db) && r.expectedVersion >= 0
    ensures Decide(db, r).Replayed?
       <==> exists i :: 0 <= i < |db.log| && Records(db.log[i], r)
    ensures Decide(db, r) == Refused(OperationConflict)
       <==> Stored(db.log, r.operationId)
            && forall i :: 0 <= i < |db.log| ==> !Records(db.log[i], r)
    ensures forall i :: 0 <= i < |db.log| && Records(db.log[i], r) ==>
              Decide(db, r) == Replayed(db.log[i])
    ensures Decide(db, r).Applied? ==>
              !Stored(db.log, r.operationId) && Records(Decide(db, r).added, r)
  {
    forall i | 0 <= i < |db.log| && db.log[i].event.id == r.operationId
      ensures Decide(db, r) == if Records(db.log[i], r) then Replayed(db.log[i])
                               else Refused(OperationConflict)
    {
      StoredRowDecides(db, r, i);
    }
    if !Stored(db.log, r.operationId) {
      UnstoredIsNotFound(db.log, r.operationId);
    }
  }

  lemma UnstoredIsNotFound(log: seq<Activation>, id: Uuid)
    requires !Stored(log, id)
    ensures FindActivation(log, id).None?
  {
  }

  lemma AppliedRow(db: Db, r: Request)
    requires Decide(db, r).Applied?
    ensures Commit(db, Decide(db, r)).log == db.log + [Candidate(r)]
    ensures r.expectedVersion == db.version >= 0
  {
  }

  lemma RowSurvives(db: Db, steps: seq<Step>, i: nat)
    requires Inv(db) && i < |db.log|
    ensures Inv(Run(db, steps))
    ensures i < |Run(db, steps).log| && Run(db, steps).log[i] == db.log[i]
  {
    RunKeepsInv(db, steps);
    RunIsLater(db, steps);
  }

  /** Repeating an applied request at any later time returns its event and changes nothing. */
  lemma ReplayIsIdempotent(db: Db, r: Request, steps: seq<Step>, later: Db)
    requires Inv(db) && Decide(db, r).Applied?
    requires later == Run(Commit(db, Decide(db, r)), steps)
    ensures Decide(later, r) == Replayed(Candidate(r))
    ensures Apply(later, Submit(r)) == later
  {
    TransitionKeepsInv(db, r);
    AppliedRow(db, r);
    RowSurvives(Commit(db, Decide(db, r)), steps, |db.log|);
    StoredIsReplayed(later, r, |db.log|);
  }

  /** After one operation succeeds for a version, no other operation ID ever can. */
  lemma OneSuccessPerVersion(db: Db, r: Request, steps: seq<Step>, other: Request)
    requires Inv(db) && Decide(db, r).Applied?
    requires other.expectedVersion == r.expectedVersion && other.operationId != r.operationId
    ensures !Decide(Run(Commit(db, Decide(db, r)), steps), other).Applied?
  {
    var applied := Commit(db, Decide(db, r));
    TransitionKeepsInv(db, r);
    RunKeepsInv(applied, steps);
    RunIsLater(applied, steps);
  }

  /** The version counts the stored operations, whose IDs are all different. */
  lemma VersionCountsOperations(kind: Kind, steps: seq<Step>)
    ensures var db := Run(Empty(kind), steps);
            db.version == |set a | a in db.log :: a.event.id|
  {
    var db := Run(Empty(kind), steps);
    EmptyHoldsInv(kind);
    RunKeepsInv(Empty(kind), steps);
    var ids := seq(|db.log|, i requires 0 <= i < |db.log| => db.log[i].event.id);
    forall i, j | 0 <= i < j < |ids|
      ensures ids[i] != ids[j]
    {
      WellFormedFacts(Events(db.log), j);
      assert Events(db.log)[i].id != Events(db.log)[j].id;
    }
    DistinctSize(ids);
    forall x
      ensures x in Elements(ids) <==> x in (set a | a in db.log :: a.event.id)
    {
      if x in Elements(ids) {
        var i :| 0 <= i < |ids| && ids[i] == x;
        assert db.log[i] in db.log;
      }
      if x in (set a | a in db.log :: a.event.id) {
        var a :| a in db.log && a.event.id == x;
        var i :| 0 <= i < |db.log| && db.log[i] == a;
        assert ids[i] == x;
      }
    }
    assert Elements(ids) == (set a | a in db.log :: a.event.id);
  }
}
