/**
 * The backup tool's view of the recent channel: a parser that replays an exported activation
 * list, and the two directions in which it agrees with the transition service.
 */
module BackupReplay {
  import opened Common
  import opened ActivationLog
  import opened ChannelSql
  import opened Channel
  import Reviews

  const MAX_ACTIVATIONS := 10_000
  const MAX_PUBLICATION_ENTRIES := 100_000

  datatype RevisionRecord = RevisionRecord(
    id: Uuid,
    factSet: string,
    generation: Uuid,
    reviewDecision: Uuid,
    reviewParseRun: Uuid,
    approve: bool,
    entryCount: int)

  /** The decoded publication object; a withdrawn channel exports nulls. */
  datatype Contract = Contract(
    version: int,
    current: Option<Uuid>,
    revision: Option<RevisionRecord>,
    activations: seq<Event>)

  predicate HeaderValid(c: Contract) {
    && 1 <= c.version <= MAX_ACTIVATIONS
    && c.current.Some?
    && c.revision.Some?
    && c.revision.value.id == c.current.value
    && c.revision.value.generation == c.revision.value.reviewParseRun
    && c.revision.value.approve
    && Sha256Text(c.revision.value.factSet)
    && 1 <= c.revision.value.entryCount <= MAX_PUBLICATION_ENTRIES
    && |c.activations| == c.version
  }

  /** A valid header over a well-formed history that ends at the exported pointer. */
  ghost predicate Accepted(c: Contract) {
    HeaderValid(c) && WellFormed(c.activations) && PointerAfter(c.activations) == c.current
  }

  /** What the loop variables hold after a prefix. */
  ghost predicate ReplayState(
    es: seq<Event>, derivedCurrent: Option<Uuid>, priorTargets: set<Uuid>, seenIds: set<Uuid>)
  {
    && derivedCurrent == PointerAfter(es)
    && (forall id :: id in seenIds <==> HasId(es, id))
    && (forall t :: t in priorTargets <==> WasTarget(es, Some(t)))
  }

  method ParseContract(c: Contract) returns (accepted: bool)
    ensures accepted <==> Accepted(c)
  {
    if !HeaderValid(c) {
      return false;
    }
    var wellFormed, derivedCurrent := Replay(c.activations);
    accepted := wellFormed && derivedCurrent == c.current;
  }

  /** The replay loop: one pass with the derived pointer, earlier targets and seen IDs. */
  method Replay(es: seq<Event>) returns (wellFormed: bool, derivedCurrent: Option<Uuid>)
    ensures wellFormed <==> WellFormed(es)
    ensures wellFormed ==> derivedCurrent == PointerAfter(es)
  {
    derivedCurrent := None;
    var priorTargets: set<Uuid> := {};
    var seenIds: set<Uuid> := {};
    for i := 0 to |es|
      invariant ReplayedTo(es, i, derivedCurrent, priorTargets, seenIds)
    {
      var e := es[i];
      var fits := EventFits(es[..i], e, i + 1, derivedCurrent, priorTargets, seenIds);
      if !fits {
        BrokenPrefix(es, i);
        return false, None;
      }
      ReplayedOneMore(es, i, derivedCurrent, priorTargets, seenIds);
      seenIds := seenIds + {e.id};
      if e.operation != Withdraw {
        priorTargets := priorTargets + {e.target.value};
      }
      derivedCurrent := e.target;
    }
    assert es[..|es|] == es;
    wellFormed := true;
  }

  ghost predicate ReplayedTo(
    es: seq<Event>, i: nat,
    derivedCurrent: Option<Uuid>, priorTargets: set<Uuid>, seenIds: set<Uuid>)
    requires i <= |es|
  {
    WellFormed(es[..i]) && ReplayState(es[..i], derivedCurrent, priorTargets, seenIds)
  }

  lemma ReplayedOneMore(
    es: seq<Event>, i: nat,
    derivedCurrent: Option<Uuid>, priorTargets: set<Uuid>, seenIds: set<Uuid>)
    requires i < |es| && ReplayedTo(es, i, derivedCurrent, priorTargets, seenIds)
    requires Extends(es[..i], es[i])
    ensures ReplayedTo(
              es, i + 1, es[i].target,
              if es[i].operation != Withdraw then priorTargets + {es[i].target.value}
              else priorTargets,
              seenIds + {es[i].id})
  {
    assert es[..i + 1] == es[..i] + [es[i]];
    WellFormedAppend(es[..i], es[i]);
    StateAfter(es[..i], es[i], derivedCurrent, priorTargets, seenIds);
  }

  /** The body of the loop up to its first update; the prefix it extends is ghost. */
  method EventFits(
    ghost es: seq<Event>, e: Event, expectedSequence: int,
    derivedCurrent: Option<Uuid>, priorTargets: set<Uuid>, seenIds: set<Uuid>)
    returns (fits: bool)
    requires expectedSequence == |es| + 1
    requires ReplayState(es, derivedCurrent, priorTargets, seenIds)
    ensures fits <==> Extends(es, e)
  {
    TestMatchesExtends(es, e, derivedCurrent, priorTargets, seenIds);
    if e.operation.Unknown? || e.sequence != expectedSequence || !FieldsValid(e) {
      return false;
    }
    if e.id in seenIds || e.previous != derivedCurrent {
      return false;
    }
    if e.operation == Withdraw {
      if derivedCurrent.None? || e.target.Some? {
        return false;
      }
    } else {
      if e.target.None? || e.target == derivedCurrent {
        return false;
      }
      if e.operation == Rollback && e.target.value !in priorTargets {
        return false;
      }
    }
    fits := true;
  }

  lemma BrokenPrefix(es: seq<Event>, i: nat)
    requires i < |es| && !Extends(es[..i], es[i])
    ensures !WellFormed(es)
  {
    assert !EventFollows(es, i);
  }

  lemma TestMatchesExtends(
    es: seq<Event>, e: Event,
    derivedCurrent: Option<Uuid>, priorTargets: set<Uuid>, seenIds: set<Uuid>)
    requires ReplayState(es, derivedCurrent, priorTargets, seenIds)
    ensures Extends(es, e)
       <==> && e.sequence == |es| + 1
            && FieldsValid(e)
            && e.id !in seenIds
            && e.previous == derivedCurrent
            && match e.operation
               case Withdraw => derivedCurrent.Some? && e.target.None?
               case Activate => e.target.Some? && e.target != derivedCurrent
               case Rollback =>
                 e.target.Some? && e.target != derivedCurrent && e.target.value in priorTargets
               case Unknown(_) => false
  {
    assert HasId(es, e.id) <==> e.id in seenIds;
    if e.target.Some? {
      assert WasTarget(es, e.target) <==> e.target.value in priorTargets;
    }
  }

  lemma StateAfter(
    es: seq<Event>, e: Event,
    derivedCurrent: Option<Uuid>, priorTargets: set<Uuid>, seenIds: set<Uuid>)
    requires ReplayState(es, derivedCurrent, priorTargets, seenIds)
    ensures ReplayState(
              es + [e], e.target,
              if e.target.Some? then priorTargets + {e.target.value} else priorTargets,
              seenIds + {e.id})
  {
    forall id
      ensures id in seenIds + {e.id} <==> HasId(es + [e], id)
    {
      HasIdAppend(es, e, id);
    }
    var next := if e.target.Some? then priorTargets + {e.target.value} else priorTargets;
    forall t
      ensures t in next <==> WasTarget(es + [e], Some(t))
    {
      WasTargetAppend(es, e, t);
    }
  }

  // ---------------------------------------------------------------- producer to parser

  /**
   * The inventory query over the stored tables: it joins the current sealed revision with its
   * decision, and yields no row unless that decision approves the revision's generation and
   * no later decision supersedes it.
   */
  function Export(db: Db): Contract {
    Contract(db.version, db.current,
             if db.current.Some? && db.current.value in db.revisions then
               ActiveRevision(db.reviews, db.current.value, db.revisions[db.current.value])
             else None,
             Events(db.log))
  }

  function ActiveRevision(reviews: seq<Reviews.Decision>, id: Uuid, row: Revision)
    : Option<RevisionRecord>
  {
    if !row.sealed || |row.reviews| != 1 then None
    else
      var decision := Reviews.Lookup(reviews, row.reviews[0]);
      if decision.None?
         || decision.value.verdict != Reviews.Approve
         || decision.value.generation.parseRun != row.generation
         || Reviews.IsSuperseded(reviews, row.reviews[0]) then None
      else
        Some(RevisionRecord(
               id, row.factSet, row.generation, row.reviews[0],
               decision.value.generation.parseRun, true, row.entryCount))
  }

  /** When the inventory query yields a row for a revision, and which. */
  lemma ActiveRevisionMeans(reviews: seq<Reviews.Decision>, id: Uuid, row: Revision)
    requires Reviews.DistinctIds(reviews)
    ensures var active := ActiveRevision(reviews, id, row);
            && (active.Some?
                <==> && row.sealed && |row.reviews| == 1
                     && (exists d :: && d in reviews && d.id == row.reviews[0]
                                     && d.verdict == Reviews.Approve
                                     && d.generation.parseRun == row.generation)
                     && forall e :: e in reviews ==> e.supersedes != Some(row.reviews[0]))
            && (active.Some? ==>
                  active.value == RevisionRecord(id, row.factSet, row.generation, row.reviews[0],
                                                 row.generation, true, row.entryCount))
  {
    if row.sealed && |row.reviews| == 1 {
      Reviews.SupersededIff(reviews, row.reviews[0]);
      if d :| d in reviews && d.id == row.reviews[0] && d.verdict == Reviews.Approve
              && d.generation.parseRun == row.generation {
        Reviews.OneRowPerId(reviews, d);
      }
    }
  }

  lemma CurrentIsSealed(db: Db)
    requires Inv(db) && db.current.Some?
    ensures db.current.value in db.revisions && db.revisions[db.current.value].sealed
  {
    var es := Events(db.log);
    assert es != [] && db.log[|es| - 1].event.target == db.current;
  }

  /**
   * Every run of the recent service is exported in a form that the parser accepts exactly
   * when a revision is current, the two size limits hold and nobody has superseded the review
   * behind that revision since it was sealed.
   */
  lemma ProducerAccepted(steps: seq<Step>)
    ensures var db := Run(Empty(Recent), steps);
            Accepted(Export(db))
            <==> && db.current.Some?
                 && |db.log| <= 10_000
                 && db.current.value in db.revisions
                 && db.revisions[db.current.value].entryCount <= 100_000
                 && forall d, i ::
                      && d in db.reviews
                      && 0 <= i < |db.revisions[db.current.value].reviews| ==>
                        d.supersedes != Some(db.revisions[db.current.value].reviews[i])
  {
    var db := Run(Empty(Recent), steps);
    EmptyHoldsInv(Recent);
    RunKeepsInv(Empty(Recent), steps);
    RunIsLater(Empty(Recent), steps);
    if db.current.Some? {
      CurrentIsSealed(db);
      var row := db.revisions[db.current.value];
      assert RecentShape(db, row);
      assert Approved(db.reviews, row.reviews[0]);
      Reviews.SupersededIff(db.reviews, row.reviews[0]);
    }
  }

  /**
   * Once a review behind a revision is superseded, no later export with that revision
   * current is accepted.
   */
  lemma RevokedIsNeverAccepted(db: Db, steps: seq<Step>, id: Uuid)
    requires Inv(db) && db.kind == Recent && Revoked(db, id)
    requires Run(db, steps).current == Some(id)
    ensures !Accepted(Export(Run(db, steps)))
  {
    var after := Run(db, steps);
    RunKeepsInv(db, steps);
    RunIsLater(db, steps);
    RevokedStays(db, after, id);
    RevokedIsNotExported(after, id);
  }

  lemma RevokedIsNotExported(db: Db, id: Uuid)
    requires Inv(db) && db.kind == Recent && Revoked(db, id) && db.current == Some(id)
    ensures Export(db).revision == None
  {
    CurrentIsSealed(db);
    assert RecentShape(db, db.revisions[id]);
  }

  // ---------------------------------------------------------------- canonical inspection

  datatype CanonicalPublication = CanonicalPublication(
    version: int,
    current: Uuid,
    factSet: string,
    entryCount: int,
    lastId: Uuid,
    lastOperation: Operation,
    lastSequence: int)

  predicate CanonicalValid(k: CanonicalPublication) {
    && 1 <= k.version <= MAX_ACTIVATIONS
    && 1 <= k.entryCount <= MAX_PUBLICATION_ENTRIES
    && k.lastSequence == k.version
    && (k.lastOperation == Activate || k.lastOperation == Rollback)
    && Sha256Text(k.factSet)
  }

  predicate InventoryMatches(k: CanonicalPublication, c: Contract) {
    && c.activations != []
    && c.revision.Some?
    && var latest := c.activations[|c.activations| - 1];
       && k.version == c.version
       && c.current == Some(k.current)
       && k.current == c.revision.value.id
       && k.factSet == c.revision.value.factSet
       && k.entryCount == c.revision.value.entryCount
       && k.lastId == latest.id
       && k.lastOperation == latest.operation
       && k.lastSequence == latest.sequence
  }

  /**
   * For an accepted contract the inspection output is determined: exactly one canonical
   * publication matches the inventory, and it also passes the stricter inspection parser,
   * which refuses a last WITHDRAW.
   */
  lemma CanonicalIsDetermined(c: Contract)
    requires Accepted(c)
    ensures exists k :: CanonicalValid(k) && InventoryMatches(k, c)
    ensures forall k, l :: InventoryMatches(k, c) && InventoryMatches(l, c) ==> k == l
    ensures forall k :: InventoryMatches(k, c) ==> CanonicalValid(k)
  {
    var last := c.activations[|c.activations| - 1];
    var revision := c.revision.value;
    WellFormedFacts(c.activations, |c.activations| - 1);
    var k := CanonicalPublication(
      c.version, revision.id, revision.factSet, revision.entryCount,
      last.id, last.operation, last.sequence);
    assert CanonicalValid(k) && InventoryMatches(k, c);
  }

  // ---------------------------------------------------------------- what inspections exist

  /** Two revisions take turns, so that the wanted one is current after the last event. */
  function TurnOf(k: CanonicalPublication, sequence: int): Uuid {
    if (k.version - sequence) % 2 == 0 then k.current else k.current + 1
  }

  function TurnEvent(k: CanonicalPublication, sequence: nat): Event
    requires 1 <= sequence
  {
    Event(if sequence == k.version then k.lastId else k.lastId + sequence,
          if sequence == k.version then k.lastOperation else Activate,
          sequence,
          if sequence == 1 then None else Some(TurnOf(k, sequence - 1)),
          Some(TurnOf(k, sequence)),
          "A", k.factSet)
  }

  function Turns(k: CanonicalPublication): seq<Event>
    requires k.version >= 1
  {
    seq(k.version, i requires 0 <= i < k.version => TurnEvent(k, i + 1))
  }

  lemma TurnFollows(k: CanonicalPublication, i: nat)
    requires CanonicalValid(k) && (k.lastOperation == Rollback ==> k.version >= 3)
    requires i < k.version
    ensures EventFollows(Turns(k), i)
  {
    var before, e := Turns(k)[..i], Turns(k)[i];
    assert forall j :: 0 <= j < i ==> before[j] == TurnEvent(k, j + 1);
    if e.operation == Rollback {
      assert before[i - 2].target == e.target;
    }
  }

  /**
   * The inspection parser is exact up to one case: a publication passes it if and only if some
   * accepted contract has that inspection, or it claims a rollback at the first or the second
   * event, where there is nothing to roll back to.
   */
  lemma InspectionsExist(k: CanonicalPublication)
    ensures CanonicalValid(k)
       <==> || (exists c :: Accepted(c) && InventoryMatches(k, c))
            || (k.lastOperation == Rollback && 1 <= k.version <= 2 && k.lastSequence == k.version
                && 1 <= k.entryCount <= 100_000 && Sha256Text(k.factSet))
    ensures k.lastOperation == Rollback && k.version <= 2 ==>
              !exists c :: Accepted(c) && InventoryMatches(k, c)
  {
    if c :| Accepted(c) && InventoryMatches(k, c) {
      CanonicalIsDetermined(c);
      if k.lastOperation == Rollback {
        RollbackComesThird(c);
      }
    }
    if CanonicalValid(k) && (k.lastOperation == Rollback ==> k.version >= 3) {
      var revision := RevisionRecord(k.current, k.factSet, 0, 0, 0, true, k.entryCount);
      var c := Contract(k.version, Some(k.current), Some(revision), Turns(k));
      forall i | 0 <= i < k.version
        ensures EventFollows(Turns(k), i)
      {
        TurnFollows(k, i);
      }
      assert Accepted(c) && InventoryMatches(k, c);
    }
  }

  lemma RollbackComesThird(c: Contract)
    requires Accepted(c) && c.activations[|c.activations| - 1].operation == Rollback
    ensures c.version >= 3
  {
    var n := |c.activations|;
    WellFormedFacts(c.activations, n - 1);
    assert WasTarget(c.activations[..n - 1], c.activations[n - 1].target);
  }
}
