/**
 * The other direction of the agreement: whatever the backup parser accepts is the export of
 * some run of the recent service over sealed, currently approved revisions.
 */
module BackupRebuild {
  import opened Common
  import opened ActivationLog
  import opened ChannelSql
  import opened Channel
  import opened BackupReplay
  import Reviews

  // One approved generation and one sealed revision for every target of the history. The
  // current revision gets the exported columns, the others get keys beyond the exported ones.

  function ReviewOf(record: RevisionRecord, target: Uuid): Uuid {
    if target == record.id then record.reviewDecision else record.reviewDecision + 1 + target
  }

  function ParseRunOf(record: RevisionRecord, target: Uuid): Uuid {
    if target == record.id then record.generation else record.generation + 1 + target
  }

  function DecisionOf(record: RevisionRecord, target: Uuid): Reviews.Decision {
    Reviews.Decision(
      ReviewOf(record, target),
      Reviews.Generation(0, 0, ParseRunOf(record, target)),
      Reviews.Approve, "", None)
  }

  function RevisionOf(record: RevisionRecord, target: Uuid): Revision {
    Revision(true, [ReviewOf(record, target)], ParseRunOf(record, target), record.factSet,
             target, if target == record.id then record.entryCount else 1)
  }

  function RequestOf(e: Event): Request {
    Request(e.id, e.operation, e.target, e.previous, e.sequence - 1, 0, e.reason, e.evidence)
  }

  function StepsFor(record: RevisionRecord, es: seq<Event>): seq<Step> {
    if es == [] then []
    else
      var front := es[..|es| - 1];
      var e := es[|es| - 1];
      StepsFor(record, front) + Introduction(record, front, e) + [Submit(RequestOf(e))]
  }

  /** Review and seal a target the first time it occurs. */
  function Introduction(record: RevisionRecord, es: seq<Event>, e: Event): seq<Step> {
    if e.target.Some? && !WasTarget(es, e.target) then
      [Review(DecisionOf(record, e.target.value), true),
       Seal(e.target.value, RevisionOf(record, e.target.value))]
    else []
  }

  /** The state after a prefix holds exactly the rows introduced for its targets. */
  ghost predicate Rebuilt(record: RevisionRecord, es: seq<Event>, db: Db) {
    && Inv(db)
    && db.kind == Recent
    && Events(db.log) == es
    && RowsFor(record, es, db)
  }

  ghost predicate RowsFor(record: RevisionRecord, es: seq<Event>, db: Db) {
    && (forall d :: d in db.reviews ==>
          exists t :: WasTarget(es, Some(t)) && d == DecisionOf(record, t))
    && (forall t :: t in db.revisions ==> WasTarget(es, Some(t)))
    && (forall t :: WasTarget(es, Some(t)) ==>
          && t in db.revisions
          && db.revisions[t] == RevisionOf(record, t)
          && DecisionOf(record, t) in db.reviews)
  }

  lemma TargetsAfterAppend(es: seq<Event>, e: Event)
    ensures forall t: Uuid ::
              WasTarget(es + [e], Some(t)) <==> WasTarget(es, Some(t)) || e.target == Some(t)
  {
    var all := es + [e];
    assert all[|es|] == e && forall j :: 0 <= j < |es| ==> all[j] == es[j];
    forall t: Uuid
      ensures WasTarget(all, Some(t)) <==> WasTarget(es, Some(t)) || e.target == Some(t)
    {
      if WasTarget(es, Some(t)) {
        var j :| 0 <= j < |es| && es[j].target == Some(t);
        assert all[j].target == Some(t);
      }
      if e.target == Some(t) {
        assert all[|es|].target == Some(t);
      }
    }
  }

  lemma {:induction false} RunAppend(db: Db, first: seq<Step>, second: seq<Step>)
    ensures Run(db, first + second) == Run(Run(db, first), second)
    decreases |first|
  {
    hide Apply;
    if first == [] {
      assert first + second == second;
    } else {
      RunAppend(Apply(db, first[0]), first[1..], second);
      assert (first + second)[1..] == first[1..] + second;
    }
  }

  lemma RunOne(db: Db, step: Step)
    ensures Run(db, [step]) == Apply(db, step)
  {
  }

  lemma RunTwo(db: Db, first: Step, second: Step)
    ensures Run(db, [first, second]) == Apply(Apply(db, first), second)
  {
    RunAppend(db, [first], [second]);
    assert [first] + [second] == [first, second];
  }

  ghost predicate AllRoots(rows: seq<Reviews.Decision>) {
    forall d :: d in rows ==> d.supersedes == None
  }

  lemma RowsAreRoots(record: RevisionRecord, es: seq<Event>, db: Db)
    requires RowsFor(record, es, db)
    ensures AllRoots(db.reviews)
  {
  }

  lemma RootsSupersedeNothing(rows: seq<Reviews.Decision>, id: Uuid)
    requires AllRoots(rows)
    ensures !Reviews.IsSuperseded(rows, id)
  {
    forall i | 0 <= i < |rows|
      ensures rows[i].supersedes == None
    {
      assert rows[i] in rows;
    }
  }

  lemma LookupStored(rows: seq<Reviews.Decision>, d: Reviews.Decision)
    requires Reviews.DistinctIds(rows) && d in rows
    ensures Reviews.Lookup(rows, d.id) == Some(d)
  {
    var found := Reviews.Lookup(rows, d.id).value;
    var i :| 0 <= i < |rows| && rows[i] == d;
    var j :| 0 <= j < |rows| && rows[j] == found;
    assert i == j;
  }

  ghost predicate Unrelated(rows: seq<Reviews.Decision>, d: Reviews.Decision) {
    forall other :: other in rows ==> other.id != d.id && other.generation != d.generation
  }

  lemma NewTargetIsUnrelated(record: RevisionRecord, es: seq<Event>, db: Db, t: Uuid)
    requires RowsFor(record, es, db) && !WasTarget(es, Some(t))
    ensures Unrelated(db.reviews, DecisionOf(record, t))
  {
    var d := DecisionOf(record, t);
    forall other | other in db.reviews
      ensures other.id != d.id && other.generation != d.generation
    {
      var u :| WasTarget(es, Some(u)) && other == DecisionOf(record, u);
      assert u != t;
    }
  }

  lemma UnrelatedIsRecorded(rows: seq<Reviews.Decision>, d: Reviews.Decision)
    requires Unrelated(rows, d) && d.supersedes == None
    ensures Reviews.Record(rows, d, true) == rows + [d]
  {
    forall i | 0 <= i < |rows|
      ensures rows[i].generation != d.generation
    {
      assert rows[i] in rows;
    }
  }

  lemma UnrelatedIsSealable(rows: seq<Reviews.Decision>, d: Reviews.Decision)
    requires Reviews.Linear(rows) && Unrelated(rows, d) && AllRoots(rows)
    requires d.supersedes == None && d.verdict == Reviews.Approve
    ensures SealableReview(rows + [d], d.id)
    ensures Reviews.Lookup(rows + [d], d.id) == Some(d)
  {
    var after := rows + [d];
    UnrelatedIsRecorded(rows, d);
    Reviews.RecordKeepsLinear(rows, d, true);
    assert after[|rows|] == d;
    LookupStored(after, d);
    RootsSupersedeNothing(after, d.id);
    Reviews.NotSupersededIffLatest(after, d);
  }

  /** The revisions share their facts and differ in the public copy. */
  lemma NewTargetKeyIsFree(record: RevisionRecord, es: seq<Event>, db: Db, t: Uuid)
    requires RowsFor(record, es, db) && !WasTarget(es, Some(t))
    ensures t !in db.revisions && !KeyTaken(db, RevisionOf(record, t))
  {
    forall id | id in db.revisions
      ensures !SameKey(db.revisions[id], RevisionOf(record, t))
    {
      assert WasTarget(es, Some(id));
    }
  }

  /** Approving and sealing a new target adds exactly its two rows. */
  lemma IntroduceTarget(record: RevisionRecord, es: seq<Event>, db: Db, t: Uuid)
    requires Reviews.Linear(db.reviews) && db.kind == Recent
    requires RowsFor(record, es, db) && !WasTarget(es, Some(t))
    requires Sha256Text(record.factSet) && record.entryCount >= 1
    ensures Run(db, [Review(DecisionOf(record, t), true), Seal(t, RevisionOf(record, t))])
         == db.(reviews := db.reviews + [DecisionOf(record, t)],
                revisions := db.revisions[t := RevisionOf(record, t)])
  {
    var d := DecisionOf(record, t);
    RowsAreRoots(record, es, db);
    NewTargetIsUnrelated(record, es, db, t);
    UnrelatedIsRecorded(db.reviews, d);
    UnrelatedIsSealable(db.reviews, d);
    NewTargetKeyIsFree(record, es, db, t);
    RunTwo(db, Review(d, true), Seal(t, RevisionOf(record, t)));
  }

  /** After the introduction, every target of the longer history has its rows. */
  lemma IntroductionStep(record: RevisionRecord, es: seq<Event>, db: Db, e: Event)
    requires Rebuilt(record, es, db)
    requires Sha256Text(record.factSet) && record.entryCount >= 1
    ensures var after := Run(db, Introduction(record, es, e));
            && Inv(after)
            && after.kind == Recent
            && after.log == db.log
            && RowsFor(record, es + [e], after)
  {
    TargetsAfterAppend(es, e);
    RunKeepsInv(db, Introduction(record, es, e));
    if e.target.Some? && !WasTarget(es, e.target) {
      IntroduceTarget(record, es, db, e.target.value);
      RowsAfterIntroduction(record, es, db, e);
    }
  }

  lemma RowsAfterIntroduction(record: RevisionRecord, es: seq<Event>, db: Db, e: Event)
    requires RowsFor(record, es, db) && e.target.Some?
    ensures var t := e.target.value;
            RowsFor(record, es + [e],
                    db.(reviews := db.reviews + [DecisionOf(record, t)],
                        revisions := db.revisions[t := RevisionOf(record, t)]))
  {
    TargetsAfterAppend(es, e);
    var t := e.target.value;
    var reviews := db.reviews + [DecisionOf(record, t)];
    assert WasTarget(es + [e], Some(t));
    forall d | d in reviews
      ensures exists u :: WasTarget(es + [e], Some(u)) && d == DecisionOf(record, u)
    {
      if d in db.reviews {
        var u :| WasTarget(es, Some(u)) && d == DecisionOf(record, u);
        assert WasTarget(es + [e], Some(u));
      }
    }
    assert reviews[|db.reviews|] == DecisionOf(record, t);
  }

  lemma EligibleTarget(record: RevisionRecord, es: seq<Event>, db: Db, t: Uuid)
    requires Reviews.DistinctIds(db.reviews) && db.kind == Recent
    requires RowsFor(record, es, db) && WasTarget(es, Some(t))
    ensures Eligible(db, Activate, t) && Eligible(db, Rollback, t)
  {
    var d := DecisionOf(record, t);
    LookupStored(db.reviews, d);
    RowsAreRoots(record, es, db);
    RootsSupersedeNothing(db.reviews, d.id);
  }

  lemma UnusedIdIsNotFound(log: seq<Activation>, id: Uuid)
    requires !HasId(Events(log), id)
    ensures FindActivation(log, id).None?
  {
    forall j | 0 <= j < |log|
      ensures log[j].event.id != id
    {
      assert Events(log)[j].id != id;
    }
  }

  /** The service applies the request behind the next event of a well-formed history. */
  lemma SubmitStep(record: RevisionRecord, es: seq<Event>, db: Db, e: Event)
    requires Inv(db) && db.kind == Recent && Events(db.log) == es
    requires RowsFor(record, es + [e], db)
    requires Extends(es, e)
    ensures Decide(db, RequestOf(e)) == Applied(Activation(e, 0))
  {
    assert Candidate(RequestOf(e)) == Activation(e, 0);
    UnusedIdIsNotFound(db.log, e.id);
    if e.target.Some? {
      TargetsAfterAppend(es, e);
      EligibleTarget(record, es + [e], db, e.target.value);
      PreviouslyCurrentIsWasTarget(db, e.target.value);
    }
    ExtensionIsApplied(db, e);
  }

  lemma ExtensionIsApplied(db: Db, e: Event)
    requires db.version == |db.log| && db.current == PointerAfter(Events(db.log))
    requires FindActivation(db.log, e.id).None?
    requires Extends(Events(db.log), e)
    requires e.target.Some? ==> Eligible(db, e.operation, e.target.value)
    requires e.target.Some? && WasTarget(Events(db.log), e.target) ==>
               PreviouslyCurrent(db.log, db.version, e.target.value)
    ensures Decide(db, RequestOf(e)) == Applied(Activation(e, 0))
  {
    assert Candidate(RequestOf(e)) == Activation(e, 0);
  }

  lemma {:induction false} Rebuild(record: RevisionRecord, es: seq<Event>)
    requires WellFormed(es)
    requires Sha256Text(record.factSet) && record.entryCount >= 1
    ensures Rebuilt(record, es, Run(Empty(Recent), StepsFor(record, es)))
  {
    if es == [] {
      EmptyHoldsInv(Recent);
      assert RowsFor(record, [], Empty(Recent));
    } else {
      var front := es[..|es| - 1];
      var e := es[|es| - 1];
      assert es == front + [e];
      WellFormedAppend(front, e);
      Rebuild(record, front);
      RebuildOne(record, front, e);
    }
  }

  lemma RunSteps(record: RevisionRecord, front: seq<Event>, e: Event, start: Db, db: Db)
    requires db == Run(start, StepsFor(record, front))
    ensures Run(start, StepsFor(record, front + [e]))
         == Apply(Run(db, Introduction(record, front, e)), Submit(RequestOf(e)))
  {
    var es := front + [e];
    assert es[..|es| - 1] == front && es[|es| - 1] == e;
    var introduction := Introduction(record, front, e);
    RunAppend(start, StepsFor(record, front), introduction);
    RunAppend(start, StepsFor(record, front) + introduction, [Submit(RequestOf(e))]);
    RunOne(Run(db, introduction), Submit(RequestOf(e)));
  }

  lemma RebuildOne(record: RevisionRecord, front: seq<Event>, e: Event)
    requires Rebuilt(record, front, Run(Empty(Recent), StepsFor(record, front)))
    requires Extends(front, e)
    requires Sha256Text(record.factSet) && record.entryCount >= 1
    ensures Rebuilt(record, front + [e], Run(Empty(Recent), StepsFor(record, front + [e])))
  {
    var db := Run(Empty(Recent), StepsFor(record, front));
    var introduced := Run(db, Introduction(record, front, e));
    RunSteps(record, front, e, Empty(Recent), db);
    IntroductionStep(record, front, db, e);
    SubmitStep(record, front, introduced, e);
    TransitionKeepsInv(introduced, RequestOf(e));
    SubmittedState(introduced, e);
  }

  lemma SubmittedState(db: Db, e: Event)
    requires Decide(db, RequestOf(e)) == Applied(Activation(e, 0))
    ensures var after := Apply(db, Submit(RequestOf(e)));
            && Events(after.log) == Events(db.log) + [e]
            && after.reviews == db.reviews && after.revisions == db.revisions
            && after.kind == db.kind
            && after == Commit(db, Decide(db, RequestOf(e)))
  {
    EventsAppend(db.log, Activation(e, 0));
  }

  /** Every contract the parser accepts is the export of a run from the empty database. */
  lemma AcceptedIsProducible(c: Contract)
    requires Accepted(c)
    ensures Export(Run(Empty(Recent), StepsFor(c.revision.value, c.activations))) == c
  {
    hide Export, StepsFor, Run, Rebuilt;
    var record, es := c.revision.value, c.activations;
    Rebuild(record, es);
    assert es[|es| - 1].target == Some(record.id);
    assert WasTarget(es, Some(record.id));
    ExportOfRebuilt(c, Run(Empty(Recent), StepsFor(record, es)));
  }

  lemma ExportOfRebuilt(c: Contract, db: Db)
    requires Accepted(c) && WasTarget(c.activations, Some(c.current.value))
    requires Rebuilt(c.revision.value, c.activations, db)
    ensures Export(db) == c
  {
    var decision := DecisionOf(c.revision.value, c.current.value);
    LookupStored(db.reviews, decision);
    RowsAreRoots(c.revision.value, c.activations, db);
    RootsSupersedeNothing(db.reviews, decision.id);
  }

  // ---------------------------------------------------------------- a withdrawn approval

  /** A decision that revokes the one behind the exported revision. */
  function Revocation(record: RevisionRecord, id: Uuid, verdict: Reviews.Verdict)
    : Reviews.Decision
  {
    Reviews.Decision(id, DecisionOf(record, record.id).generation, verdict, "",
                     Some(record.reviewDecision))
  }

  function RebuiltDb(c: Contract): Db
    requires c.revision.Some?
  {
    Run(Empty(Recent), StepsFor(c.revision.value, c.activations))
  }

  /**
   * Every accepted export is one decision away from a refused one: after any new decision of
   * the same generation the revision is still current, and the export is not accepted.
   */
  lemma RevocationRefusesExport(c: Contract, id: Uuid, verdict: Reviews.Verdict)
    requires Accepted(c)
    requires forall d :: d in RebuiltDb(c).reviews ==> d.id != id
    ensures var after := Apply(RebuiltDb(c), Review(Revocation(c.revision.value, id, verdict), true));
            after.current == c.current && !Accepted(Export(after))
  {
    var record, es, db := c.revision.value, c.activations, RebuiltDb(c);
    var revocation := Revocation(record, id, verdict);
    Rebuild(record, es);
    AcceptedIsProducible(c);
    assert es[|es| - 1].target == Some(record.id);
    assert WasTarget(es, Some(record.id));
    var decision := DecisionOf(record, record.id);
    LookupStored(db.reviews, decision);
    RowsAreRoots(record, es, db);
    RootsSupersedeNothing(db.reviews, decision.id);
    var after := Apply(db, Review(revocation, true));
    assert after.reviews[|db.reviews|] == revocation;
    assert Reviews.IsSuperseded(after.reviews, after.revisions[record.id].reviews[0]);
    StepKeepsInv(db, Review(revocation, true));
    RevokedIsNeverAccepted(after, [], record.id);
  }

  /** Approve a generation, seal a revision of it and activate that revision. */
  function ActivateOne(hash: string): seq<Step> {
    [Review(Reviews.Decision(0, Reviews.Generation(0, 0, 0), Reviews.Approve, "", None), true),
     Seal(0, Revision(true, [0], 0, hash, 0, 1)),
     Submit(Request(0, Activate, Some(0), None, 0, 0, "A", hash))]
  }

  function RejectAfterwards(): Step {
    Review(Reviews.Decision(1, Reviews.Generation(0, 0, 0), Reviews.Reject, "", Some(0)), true)
  }

  /** The export of `ActivateOne`. */
  function OneActivation(hash: string): Contract {
    Contract(1, Some(0), Some(RevisionRecord(0, hash, 0, 0, 0, true, 1)),
             [Event(0, Activate, 1, None, Some(0), "A", hash)])
  }

  lemma OneActivationIsAccepted(hash: string)
    requires Sha256Text(hash)
    ensures Accepted(OneActivation(hash))
    ensures StepsFor(OneActivation(hash).revision.value, OneActivation(hash).activations)
         == ActivateOne(hash)
  {
    var c := OneActivation(hash);
    var e := c.activations[0];
    assert Extends([], e);
    assert WellFormed([]);
    WellFormedAppend([], e);
    assert [] + [e] == [e];
    assert c.activations[..0] == [];
    var record := c.revision.value;
    assert StepsFor(record, c.activations)
        == StepsFor(record, []) + Introduction(record, [], e) + [Submit(RequestOf(e))];
  }

  lemma OnlyOneReview(hash: string)
    requires Sha256Text(hash)
    ensures forall d :: d in RebuiltDb(OneActivation(hash)).reviews ==> d.id == 0
  {
    var c := OneActivation(hash);
    OneActivationIsAccepted(hash);
    Rebuild(c.revision.value, c.activations);
    forall d | d in RebuiltDb(c).reviews
      ensures d.id == 0
    {
      var t :| WasTarget(c.activations, Some(t)) && d == DecisionOf(c.revision.value, t);
    }
  }

  /**
   * A run whose export is accepted, and the same run with its approval rejected at the end:
   * the revision stays current and the export is refused.
   */
  lemma RejectionAfterActivation(hash: string)
    requires Sha256Text(hash)
    ensures var activated := Run(Empty(Recent), ActivateOne(hash));
            activated.current == Some(0) && Accepted(Export(activated))
    ensures var rejected := Run(Empty(Recent), ActivateOne(hash) + [RejectAfterwards()]);
            rejected.current == Some(0) && !Accepted(Export(rejected))
  {
    var c := OneActivation(hash);
    OneActivationIsAccepted(hash);
    AcceptedIsProducible(c);
    OnlyOneReview(hash);
    RevocationRefusesExport(c, 1, Reviews.Reject);
    RunAppend(Empty(Recent), ActivateOne(hash), [RejectAfterwards()]);
    RunOne(RebuiltDb(c), RejectAfterwards());
  }
}
