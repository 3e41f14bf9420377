/**
 * The activation log as three independent pieces of code see it: the exported event,
 * what makes a list of events a well-formed history, and the pointer it leaves behind.
 */
module ActivationLog {
  import opened Common

  datatype Operation = Activate | Rollback | Withdraw | Unknown(text: string)

  /** One activation without its publisher, which the backup inventory does not export. */
  datatype Event = Event(
    id: Uuid,
    operation: Operation,
    sequence: int,
    previous: Option<Uuid>,
    target: Option<Uuid>,
    reason: string,
    evidence: string)

  predicate ReasonCode(text: string) {
    && 1 <= |text| <= 64
    && 'A' <= text[0] <= 'Z'
    && forall i :: 0 <= i < |text| ==>
         'A' <= text[i] <= 'Z' || '0' <= text[i] <= '9' || text[i] == '_'
  }

  predicate Sha256Text(text: string) {
    && |text| == 64
    && forall i :: 0 <= i < |text| ==> '0' <= text[i] <= '9' || 'a' <= text[i] <= 'f'
  }

  /** Codes of capitals, digits and the underscore; of digits and the letters a to f. */
  predicate CodeCharacter(code: int) {
    65 <= code <= 90 || 48 <= code <= 57 || code == 95
  }

  predicate HexCharacter(code: int) {
    48 <= code <= 57 || 97 <= code <= 102
  }

  /** A capital letter and at most 63 more characters; 64 hexadecimal digits. */
  lemma FormatsMean(text: string)
    ensures ReasonCode(text)
       <==> && text != [] && 65 <= text[0] as int <= 90 && |text[1..]| <= 63
            && forall c :: c in text[1..] ==> CodeCharacter(c as int)
    ensures Sha256Text(text)
       <==> |text| == 64 && forall c :: c in text ==> HexCharacter(c as int)
  {
    if text != [] {
      var rest := text[1..];
      assert forall i :: 1 <= i < |text| ==> text[i] == rest[i - 1] && rest[i - 1] in rest;
      assert forall i :: 0 <= i < |text| ==> text[i] in text;
    }
  }

  predicate FieldsValid(e: Event) {
    ReasonCode(e.reason) && Sha256Text(e.evidence)
  }

  /** The current revision after a history: the last event's target. */
  function PointerAfter(es: seq<Event>): Option<Uuid> {
    if es == [] then None else es[|es| - 1].target
  }

  predicate HasId(es: seq<Event>, id: Uuid) {
    exists j :: 0 <= j < |es| && es[j].id == id
  }

  /** Whether a revision was made current by an earlier event. */
  predicate WasTarget(es: seq<Event>, target: Option<Uuid>) {
    target.Some? && exists j :: 0 <= j < |es| && es[j].target == target
  }

  /** What the next event must look like after a given history. */
  ghost predicate Extends(es: seq<Event>, e: Event) {
    && e.sequence == |es| + 1
    && e.previous == PointerAfter(es)
    && !HasId(es, e.id)
    && FieldsValid(e)
    && match e.operation
       case Withdraw => e.previous.Some? && e.target.None?
       case Activate => e.target.Some? && e.target != e.previous
       case Rollback => e.target.Some? && e.target != e.previous && WasTarget(es, e.target)
       case Unknown(_) => false
  }

  lemma HasIdAppend(es: seq<Event>, e: Event, id: Uuid)
    ensures HasId(es + [e], id) <==> HasId(es, id) || e.id == id
  {
    var all := es + [e];
    assert all[|es|] == e;
    if HasId(es, id) {
      var j :| 0 <= j < |es| && es[j].id == id;
      assert all[j].id == id;
    }
  }

  lemma WasTargetAppend(es: seq<Event>, e: Event, t: Uuid)
    ensures WasTarget(es + [e], Some(t)) <==> WasTarget(es, Some(t)) || e.target == Some(t)
  {
    var all := es + [e];
    assert all[|es|] == e;
    if WasTarget(es, Some(t)) {
      var j :| 0 <= j < |es| && es[j].target == Some(t);
      assert all[j].target == Some(t);
    }
  }

  ghost predicate EventFollows(es: seq<Event>, i: nat)
    requires i < |es|
  {
    Extends(es[..i], es[i])
  }

  ghost predicate WellFormed(es: seq<Event>) {
    forall i :: 0 <= i < |es| ==> EventFollows(es, i)
  }

  ghost predicate EventLinked(es: seq<Event>, i: nat)
    requires i < |es|
  {
    es[i].sequence == i + 1 && es[i].previous == PointerAfter(es[..i])
  }

  /** Only the numbering and the links, which is all that the deferred check compares. */
  ghost predicate Contiguous(es: seq<Event>) {
    forall i :: 0 <= i < |es| ==> EventLinked(es, i)
  }

  lemma FollowsInPrefix(es: seq<Event>, more: seq<Event>, i: nat)
    requires i < |es|
    ensures EventFollows(es + more, i) <==> EventFollows(es, i)
  {
    assert (es + more)[..i] == es[..i] && (es + more)[i] == es[i];
  }

  lemma WellFormedAppend(es: seq<Event>, e: Event)
    ensures WellFormed(es + [e]) <==> WellFormed(es) && Extends(es, e)
  {
    var all := es + [e];
    assert EventFollows(all, |es|) <==> Extends(es, e) by {
      assert all[..|es|] == es && all[|es|] == e;
    }
    forall i | 0 <= i < |es|
      ensures EventFollows(all, i) <==> EventFollows(es, i)
    {
      FollowsInPrefix(es, [e], i);
    }
  }

  lemma WellFormedFacts(es: seq<Event>, i: nat)
    requires WellFormed(es) && i < |es|
    ensures Extends(es[..i], es[i])
    ensures es[i].sequence == i + 1
    ensures forall j :: 0 <= j < i ==> es[j].id != es[i].id
  {
    assert EventFollows(es, i);
    forall j | 0 <= j < i
      ensures es[j].id != es[i].id
    {
      assert es[..i][j] == es[j];
    }
  }

  lemma WellFormedIsContiguous(es: seq<Event>)
    requires WellFormed(es)
    ensures Contiguous(es)
  {
    forall i | 0 <= i < |es|
      ensures EventLinked(es, i)
    {
      WellFormedFacts(es, i);
    }
  }
}
