/**
 * The canonical fact set of a recent publication: sorted entries, their hashes, and the seal
 * trigger's contiguity check. The two hashes are parameters.
 */
module PublicationFacts {
  import opened Common
  import opened TextOrder

  /** What the canonical snapshot data contains: eight identity fields and everything else. */
  datatype Content = Content(key: Key, date: int, details: string)

  datatype Snapshot = Snapshot(id: Uuid, parseRun: Uuid, series: Uuid, content: Content)

  datatype Entry = Entry(ordinal: int, snapshotId: Uuid, factSha: string)

  datatype FactSet = FactSet(entries: seq<Entry>, setSha: string, dateMin: int, dateMax: int)

  const FACT_SET_HASH_VERSION := "recent-retail-fact-set-v1"

  /** Unique (parse run, series) and unique series identity, as the tables enforce them. */
  ghost predicate Stored(snapshots: seq<Snapshot>) {
    && (forall i, j :: 0 <= i < |snapshots| && 0 <= j < |snapshots| && i != j
          && snapshots[i].id != snapshots[j].id
          && snapshots[i].parseRun == snapshots[j].parseRun
          ==> snapshots[i].series != snapshots[j].series)
    && (forall i, j :: 0 <= i < |snapshots| && 0 <= j < |snapshots|
          && snapshots[i].content.key == snapshots[j].content.key
          ==> snapshots[i].series == snapshots[j].series)
  }

  function Join(lines: seq<string>): string {
    if lines == [] then ""
    else if |lines| == 1 then lines[0]
    else lines[0] + "\n" + Join(lines[1..])
  }

  predicate OneParseRun(snapshots: seq<Snapshot>) {
    forall i :: 0 <= i < |snapshots| ==> snapshots[i].parseRun == snapshots[0].parseRun
  }

  predicate DistinctIds(snapshots: seq<Snapshot>) {
    |set i | 0 <= i < |snapshots| :: snapshots[i].id| == |snapshots|
  }

  function MinDate(snapshots: seq<Snapshot>): (d: int)
    requires snapshots != []
    ensures exists s :: s in snapshots && s.content.date == d
    ensures forall s :: s in snapshots ==> d <= s.content.date
  {
    Least(Column((s: Snapshot) => s.content.date, snapshots))
  }

  function MaxDate(snapshots: seq<Snapshot>): (d: int)
    requires snapshots != []
    ensures exists s :: s in snapshots && s.content.date == d
    ensures forall s :: s in snapshots ==> s.content.date <= d
  {
    Greatest(Column((s: Snapshot) => s.content.date, snapshots))
  }

  function OrderKey(s: Snapshot): Key {
    s.content.key
  }

  function Lines(ordered: seq<Snapshot>, factHash: Content -> string): seq<string> {
    seq(|ordered|, i requires 0 <= i < |ordered| => factHash(ordered[i].content))
  }

  function Enumerate(ordered: seq<Snapshot>, factHash: Content -> string): seq<Entry> {
    seq(|ordered|, i requires 0 <= i < |ordered| =>
      Entry(i + 1, ordered[i].id, factHash(ordered[i].content)))
  }

  function SetHash(lines: seq<string>, textHash: string -> string): string {
    textHash(FACT_SET_HASH_VERSION + "\n" + Join(lines))
  }

  function Build(
    snapshots: seq<Snapshot>, factHash: Content -> string, textHash: string -> string)
    : Result<FactSet, string>
  {
    if snapshots == [] then Err("A publication fact set cannot be empty.")
    else if !OneParseRun(snapshots) then Err("A publication fact set must use one parse generation.")
    else if !DistinctIds(snapshots) then Err("A publication fact set cannot repeat a snapshot.")
    else
      var ordered := SortBy(snapshots, OrderKey);
      SortPermutes(snapshots, OrderKey);
      var lines := Lines(ordered, factHash);
      Ok(FactSet(Enumerate(ordered, factHash), SetHash(lines, textHash),
                 MinDate(ordered), MaxDate(ordered)))
  }

  // ---------------------------------------------------------------- input order is irrelevant

  lemma IdsAreDistinct(snapshots: seq<Snapshot>)
    ensures DistinctIds(snapshots)
       <==> forall i, j :: 0 <= i < j < |snapshots| ==> snapshots[i].id != snapshots[j].id
  {
    var ids := seq(|snapshots|, i requires 0 <= i < |snapshots| => snapshots[i].id);
    assert (set i | 0 <= i < |snapshots| :: snapshots[i].id) == Elements(ids) by {
      forall x
        ensures x in (set i | 0 <= i < |snapshots| :: snapshots[i].id) <==> x in Elements(ids)
      {
        if x in Elements(ids) {
          var i :| 0 <= i < |ids| && ids[i] == x;
          assert snapshots[i].id == x;
        }
        if x in (set i | 0 <= i < |snapshots| :: snapshots[i].id) {
          var i :| 0 <= i < |snapshots| && snapshots[i].id == x;
          assert ids[i] == x;
        }
      }
    }
    if forall i, j :: 0 <= i < j < |snapshots| ==> snapshots[i].id != snapshots[j].id {
      assert Distinct(ids);
      DistinctSize(ids);
    } else {
      var i, j :| 0 <= i < j < |snapshots| && snapshots[i].id == snapshots[j].id;
      RepeatShrinks(ids, i, j);
    }
  }

  lemma {:induction false} ElementsAtMost<T>(s: seq<T>)
    ensures |Elements(s)| <= |s|
  {
    if s != [] {
      var front := s[..|s| - 1];
      ElementsAtMost(front);
      assert s == front + [s[|s| - 1]];
      assert Elements(s) == Elements(front) + {s[|s| - 1]};
    }
  }

  lemma RepeatShrinks<T>(s: seq<T>, i: nat, j: nat)
    requires i < j < |s| && s[i] == s[j]
    ensures |Elements(s)| < |s|
  {
    var rest := s[..j] + s[j + 1..];
    assert s == s[..j] + [s[j]] + s[j + 1..];
    assert rest[i] == s[j];
    assert Elements(rest) == Elements(s);
    ElementsAtMost(rest);
  }

  lemma AcceptedKeysDistinct(snapshots: seq<Snapshot>)
    requires Stored(snapshots) && OneParseRun(snapshots) && DistinctIds(snapshots)
    ensures DistinctKeys(snapshots, OrderKey)
  {
    IdsAreDistinct(snapshots);
    forall i, j | 0 <= i < |snapshots| && 0 <= j < |snapshots| && i != j
      ensures OrderKey(snapshots[i]) != OrderKey(snapshots[j])
    {
      assert snapshots[i].id != snapshots[j].id;
    }
  }

  lemma PermutedMembers(a: seq<Snapshot>, b: seq<Snapshot>)
    requires multiset(a) == multiset(b)
    ensures |a| == |b| && forall s :: s in a <==> s in b
  {
    assert |multiset(a)| == |a| && |multiset(b)| == |b|;
    forall s
      ensures s in a <==> s in b
    {
      assert s in multiset(a) <==> s in multiset(b);
    }
  }

  lemma PermutedChecks(a: seq<Snapshot>, b: seq<Snapshot>)
    requires multiset(a) == multiset(b)
    ensures OneParseRun(a) <==> OneParseRun(b)
    ensures DistinctIds(a) <==> DistinctIds(b)
  {
    PermutedMembers(a, b);
    if a != [] {
      assert a[0] in b && b[0] in a;
      assert forall i :: 0 <= i < |a| ==> a[i] in b;
      assert forall i :: 0 <= i < |b| ==> b[i] in a;
    }
    assert (set i | 0 <= i < |a| :: a[i].id) == (set s | s in a :: s.id);
    assert (set i | 0 <= i < |b| :: b[i].id) == (set s | s in b :: s.id);
    assert (set s | s in a :: s.id) == (set s | s in b :: s.id);
  }

  /** Permuting the stored snapshots changes neither the entries nor any hash nor any error. */
  lemma BuildIgnoresOrder(
    a: seq<Snapshot>, b: seq<Snapshot>, factHash: Content -> string, textHash: string -> string)
    requires Stored(a) && Stored(b) && multiset(a) == multiset(b)
    ensures Build(a, factHash, textHash) == Build(b, factHash, textHash)
  {
    PermutedMembers(a, b);
    PermutedChecks(a, b);
    if a != [] && OneParseRun(a) && DistinctIds(a) {
      SortedAlike(a, b);
    }
  }

  lemma SortedAlike(a: seq<Snapshot>, b: seq<Snapshot>)
    requires Stored(a) && OneParseRun(a) && DistinctIds(a)
    requires Stored(b) && OneParseRun(b) && DistinctIds(b)
    requires multiset(a) == multiset(b)
    ensures SortBy(a, OrderKey) == SortBy(b, OrderKey)
  {
    AcceptedKeysDistinct(a);
    AcceptedKeysDistinct(b);
    SortSorts(a, OrderKey);
    SortSorts(b, OrderKey);
    SortPermutes(a, OrderKey);
    SortPermutes(b, OrderKey);
    SortedIsUnique(SortBy(a, OrderKey), SortBy(b, OrderKey), OrderKey);
  }

  // ---------------------------------------------------------------- equal hash, equal contents

  const DIGEST_LENGTH := 64

  /** The hash has no collision among the given facts; every real digest has one length. */
  ghost predicate NoFactCollision(contents: seq<Content>, factHash: Content -> string) {
    && (forall c :: c in contents ==> |factHash(c)| == DIGEST_LENGTH)
    && (forall c, d :: c in contents && d in contents && factHash(c) == factHash(d) ==> c == d)
  }

  /** The two digested texts are not a collision. */
  ghost predicate NoTextCollision(x: string, y: string, textHash: string -> string) {
    textHash(x) == textHash(y) ==> x == y
  }

  /** The text whose digest is the set hash of stored snapshots. */
  function SetText(snapshots: seq<Snapshot>, factHash: Content -> string): string {
    FACT_SET_HASH_VERSION + "\n" + Join(Lines(SortBy(snapshots, OrderKey), factHash))
  }

  ghost predicate FixedLength(lines: seq<string>) {
    forall i :: 0 <= i < |lines| ==> |lines[i]| == DIGEST_LENGTH
  }

  /** Lines of equal length can be read back from their join. */
  lemma {:induction false} JoinInjective(a: seq<string>, b: seq<string>)
    requires FixedLength(a) && FixedLength(b) && Join(a) == Join(b)
    ensures a == b
  {
    JoinLength(a);
    JoinLength(b);
    if a != [] {
      assert Join(a)[..DIGEST_LENGTH] == a[0];
      assert Join(b)[..DIGEST_LENGTH] == b[0];
      if |a| > 1 {
        assert Join(a)[DIGEST_LENGTH + 1..] == Join(a[1..]);
        assert Join(b)[DIGEST_LENGTH + 1..] == Join(b[1..]);
        JoinInjective(a[1..], b[1..]);
        assert a == [a[0]] + a[1..] && b == [b[0]] + b[1..];
      }
    }
  }

  lemma {:induction false} JoinLength(lines: seq<string>)
    requires FixedLength(lines)
    ensures |Join(lines)| == if lines == [] then 0 else (DIGEST_LENGTH + 1) * |lines| - 1
  {
    if |lines| > 1 {
      JoinLength(lines[1..]);
    }
  }

  function Contents(snapshots: seq<Snapshot>): seq<Content> {
    seq(|snapshots|, i requires 0 <= i < |snapshots| => snapshots[i].content)
  }

  function ContentKey(c: Content): Key {
    c.key
  }

  lemma ContentsWithout(b: seq<Snapshot>, j: nat)
    requires j < |b|
    ensures multiset(b[..j] + b[j + 1..]) == multiset(b) - multiset{b[j]}
    ensures multiset(Contents(b))
         == multiset(Contents(b[..j] + b[j + 1..])) + multiset{b[j].content}
  {
    var rest := b[..j] + b[j + 1..];
    assert b == b[..j] + [b[j]] + b[j + 1..];
    assert Contents(b) == Contents(b[..j]) + [b[j].content] + Contents(b[j + 1..]);
    assert Contents(rest) == Contents(b[..j]) + Contents(b[j + 1..]);
  }

  /** The first snapshot of one arrangement, taken out of the other. */
  lemma TakeOut(a: seq<Snapshot>, b: seq<Snapshot>) returns (rest: seq<Snapshot>)
    requires multiset(a) == multiset(b) && a != []
    ensures multiset(a[1..]) == multiset(rest)
    ensures multiset(Contents(a)) == multiset(Contents(a[1..])) + multiset{a[0].content}
    ensures multiset(Contents(b)) == multiset(Contents(rest)) + multiset{a[0].content}
  {
    hide Contents;
    assert a[0] in multiset(b);
    var j :| 0 <= j < |b| && b[j] == a[0];
    ContentsWithout(a, 0);
    ContentsWithout(b, j);
    assert a[..0] + a[1..] == a[1..];
    rest := b[..j] + b[j + 1..];
  }

  lemma {:induction false} ContentsMultiset(a: seq<Snapshot>, b: seq<Snapshot>)
    requires multiset(a) == multiset(b)
    ensures multiset(Contents(a)) == multiset(Contents(b))
  {
    assert |multiset(a)| == |a| && |multiset(b)| == |b|;
    if a == [] {
      assert b == [];
    } else {
      var rest := TakeOut(a, b);
      ContentsMultiset(a[1..], rest);
    }
  }

  lemma SortedContents(snapshots: seq<Snapshot>)
    requires Stored(snapshots) && OneParseRun(snapshots) && DistinctIds(snapshots)
    ensures StrictlySorted(Contents(SortBy(snapshots, OrderKey)), ContentKey)
    ensures multiset(Contents(SortBy(snapshots, OrderKey))) == multiset(Contents(snapshots))
  {
    AcceptedKeysDistinct(snapshots);
    SortSorts(snapshots, OrderKey);
    SortPermutes(snapshots, OrderKey);
    ContentsMultiset(SortBy(snapshots, OrderKey), snapshots);
  }

  lemma LinesDetermineContents(a: seq<Snapshot>, b: seq<Snapshot>, factHash: Content -> string)
    requires NoFactCollision(Contents(a) + Contents(b), factHash)
    ensures Lines(a, factHash) == Lines(b, factHash) <==> Contents(a) == Contents(b)
    ensures FixedLength(Lines(a, factHash))
  {
    forall i | 0 <= i < |a|
      ensures a[i].content in Contents(a) + Contents(b)
    {
      assert (Contents(a) + Contents(b))[i] == a[i].content;
    }
    forall i | 0 <= i < |b|
      ensures b[i].content in Contents(a) + Contents(b)
    {
      assert (Contents(a) + Contents(b))[|a| + i] == b[i].content;
    }
    if Contents(a) == Contents(b) {
      forall i | 0 <= i < |a|
        ensures Lines(a, factHash)[i] == Lines(b, factHash)[i]
      {
        assert Contents(a)[i] == Contents(b)[i];
      }
    }
    if Lines(a, factHash) == Lines(b, factHash) {
      assert |a| == |Lines(a, factHash)| == |b|;
      forall i | 0 <= i < |a|
        ensures Contents(a)[i] == Contents(b)[i]
      {
        assert Lines(a, factHash)[i] == Lines(b, factHash)[i];
      }
    }
  }

  /** Freedom from collisions does not depend on the order or on which generation comes first. */
  lemma NoCollisionWhenSorted(a: seq<Snapshot>, b: seq<Snapshot>, factHash: Content -> string)
    requires Stored(a) && OneParseRun(a) && DistinctIds(a)
    requires Stored(b) && OneParseRun(b) && DistinctIds(b)
    requires NoFactCollision(Contents(a) + Contents(b), factHash)
    ensures var sortedA, sortedB := Contents(SortBy(a, OrderKey)), Contents(SortBy(b, OrderKey));
            && NoFactCollision(sortedA + sortedB, factHash)
            && NoFactCollision(sortedB + sortedA, factHash)
  {
    SortedContents(a);
    SortedContents(b);
    var sortedA, sortedB := Contents(SortBy(a, OrderKey)), Contents(SortBy(b, OrderKey));
    forall c
      ensures c in sortedA + sortedB <==> c in Contents(a) + Contents(b)
      ensures c in sortedB + sortedA <==> c in Contents(a) + Contents(b)
    {
      assert c in sortedA <==> c in multiset(Contents(a));
      assert c in sortedB <==> c in multiset(Contents(b));
    }
  }

  lemma PrefixedJoinInjective(a: seq<string>, b: seq<string>, prefix: string)
    requires FixedLength(a) && FixedLength(b) && prefix + Join(a) == prefix + Join(b)
    ensures a == b
  {
    assert (prefix + Join(a))[|prefix|..] == Join(a);
    assert (prefix + Join(b))[|prefix|..] == Join(b);
    JoinInjective(a, b);
  }

  /**
   * Unless the hashes collide on the very facts and texts at hand, the fact-set hash
   * identifies the published contents: two stored generations have equal set hashes exactly
   * when they contain the same facts.
   */
  lemma SetHashIdentifiesContents(
    a: seq<Snapshot>, b: seq<Snapshot>, factHash: Content -> string, textHash: string -> string)
    requires Stored(a) && Build(a, factHash, textHash).Ok?
    requires Stored(b) && Build(b, factHash, textHash).Ok?
    requires NoFactCollision(Contents(a) + Contents(b), factHash)
    requires NoTextCollision(SetText(a, factHash), SetText(b, factHash), textHash)
    ensures Build(a, factHash, textHash).value.setSha == Build(b, factHash, textHash).value.setSha
       <==> multiset(Contents(a)) == multiset(Contents(b))
  {
    var sortedA, sortedB := SortBy(a, OrderKey), SortBy(b, OrderKey);
    SortedContents(a);
    SortedContents(b);
    NoCollisionWhenSorted(a, b, factHash);
    LinesDetermineContents(sortedA, sortedB, factHash);
    LinesDetermineContents(sortedB, sortedA, factHash);
    var linesA, linesB := Lines(sortedA, factHash), Lines(sortedB, factHash);
    if SetHash(linesA, textHash) == SetHash(linesB, textHash) {
      PrefixedJoinInjective(linesA, linesB, FACT_SET_HASH_VERSION + "\n");
    }
    if multiset(Contents(a)) == multiset(Contents(b)) {
      SortedIsUnique(Contents(sortedA), Contents(sortedB), ContentKey);
    }
  }

  // Two generations with one snapshot each, told apart by a hash without a collision on them.

  function OneSnapshot(date: int): seq<Snapshot> {
    [Snapshot(0, 0, 0, Content(["item"], date, ""))]
  }

  /** A digest of the right length that depends on nothing but whether the date is 1. */
  function DateDigest(c: Content): string {
    seq(DIGEST_LENGTH, _ => if c.date == 1 then '1' else '0')
  }

  function Verbatim(text: string): string {
    text
  }

  lemma OneSnapshotBuilds(date: int, factHash: Content -> string, textHash: string -> string)
    ensures Stored(OneSnapshot(date)) && Build(OneSnapshot(date), factHash, textHash).Ok?
    ensures Contents(OneSnapshot(date)) == [Content(["item"], date, "")]
  {
    IdsAreDistinct(OneSnapshot(date));
  }

  lemma DateDigestIsCollisionFree(c: Content, d: Content)
    requires c.date == 0 && d.date == 1
    ensures NoFactCollision([c] + [d], DateDigest)
  {
    assert DateDigest(c)[0] == '0' && DateDigest(d)[0] == '1';
  }

  /** The hypotheses of the theorem are met, and the two hashes differ. */
  lemma DistinctDatesDistinctHashes()
    ensures var a, b := OneSnapshot(0), OneSnapshot(1);
            && Stored(a) && Build(a, DateDigest, Verbatim).Ok?
            && Stored(b) && Build(b, DateDigest, Verbatim).Ok?
            && NoFactCollision(Contents(a) + Contents(b), DateDigest)
            && NoTextCollision(SetText(a, DateDigest), SetText(b, DateDigest), Verbatim)
            && Build(a, DateDigest, Verbatim).value.setSha
               != Build(b, DateDigest, Verbatim).value.setSha
  {
    hide Build, SetText, NoFactCollision, Stored;
    var a, b := OneSnapshot(0), OneSnapshot(1);
    OneSnapshotBuilds(0, DateDigest, Verbatim);
    OneSnapshotBuilds(1, DateDigest, Verbatim);
    DateDigestIsCollisionFree(a[0].content, b[0].content);
    assert multiset(Contents(a))[a[0].content] == 1 && multiset(Contents(b))[a[0].content] == 0;
    SetHashIdentifiesContents(a, b, DateDigest, Verbatim);
  }

  // ---------------------------------------------------------------- the seal trigger

  function OrdinalSet(entries: seq<Entry>): set<int> {
    set i | 0 <= i < |entries| :: entries[i].ordinal
  }

  function SnapshotSet(entries: seq<Entry>): set<Uuid> {
    set i | 0 <= i < |entries| :: entries[i].snapshotId
  }

  /** The five aggregates: how many rows, snapshots and ordinals, and the ordinals' extremes. */
  ghost predicate SealCheck(entries: seq<Entry>, entryCount: int) {
    && |entries| == entryCount
    && |SnapshotSet(entries)| == entryCount
    && |OrdinalSet(entries)| == entryCount
    && 1 in OrdinalSet(entries) && (forall o :: o in OrdinalSet(entries) ==> 1 <= o)
    && entryCount in OrdinalSet(entries) && (forall o :: o in OrdinalSet(entries) ==> o <= entryCount)
  }

  /** The trigger's five aggregates say that the ordinals are exactly 1..n. */
  lemma SealCheckMeansContiguous(entries: seq<Entry>, entryCount: int)
    ensures SealCheck(entries, entryCount)
       <==> && entryCount >= 1
            && |entries| == entryCount
            && |SnapshotSet(entries)| == entryCount
            && OrdinalSet(entries) == Between(1, entryCount + 1)
  {
    hide OrdinalSet, SnapshotSet;
    if entryCount >= 0 {
      BetweenSize(1, entryCount + 1);
    }
    if SealCheck(entries, entryCount) {
      SubsetOfEqualSize(OrdinalSet(entries), Between(1, entryCount + 1));
    }
  }

  /** What the service inserts always passes the trigger. */
  lemma BuiltEntriesPassSeal(
    snapshots: seq<Snapshot>, factHash: Content -> string, textHash: string -> string)
    requires Build(snapshots, factHash, textHash).Ok?
    ensures SealCheck(Build(snapshots, factHash, textHash).value.entries, |snapshots|)
  {
    var ordered := SortBy(snapshots, OrderKey);
    var entries := Enumerate(ordered, factHash);
    SortPermutes(snapshots, OrderKey);
    PermutedChecks(ordered, snapshots);
    assert SnapshotSet(entries) == (set i | 0 <= i < |ordered| :: ordered[i].id) by {
      forall x
        ensures x in SnapshotSet(entries) <==> x in (set i | 0 <= i < |ordered| :: ordered[i].id)
      {
        if x in SnapshotSet(entries) {
          var i :| 0 <= i < |entries| && entries[i].snapshotId == x;
          assert ordered[i].id == x;
        }
        if x in (set i | 0 <= i < |ordered| :: ordered[i].id) {
          var i :| 0 <= i < |ordered| && ordered[i].id == x;
          assert entries[i].snapshotId == x;
        }
      }
    }
    forall x
      ensures x in OrdinalSet(entries) <==> 1 <= x <= |entries|
    {
      if 1 <= x <= |entries| {
        assert entries[x - 1].ordinal == x;
      }
    }
    assert OrdinalSet(entries) == Between(1, |snapshots| + 1);
    SealCheckMeansContiguous(entries, |snapshots|);
  }
}
