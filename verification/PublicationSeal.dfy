/**
 * The last two checks of the seal trigger: it recomputes the date range and the fact-set hash
 * from the entry rows, whatever order the table returns them in.
 */
module PublicationSeal {
  import opened TextOrder
  import opened PublicationFacts

  function InsertOrdinal(e: Entry, sorted: seq<Entry>): seq<Entry> {
    if sorted == [] || e.ordinal <= sorted[0].ordinal then [e] + sorted
    else [sorted[0]] + InsertOrdinal(e, sorted[1..])
  }

  /** Table rows by ascending ordinal. */
  function ByOrdinal(rows: seq<Entry>): seq<Entry> {
    if rows == [] then [] else InsertOrdinal(rows[0], ByOrdinal(rows[1..]))
  }

  function ShaLines(entries: seq<Entry>): seq<string> {
    seq(|entries|, i requires 0 <= i < |entries| => entries[i].factSha)
  }

  /** The dates of the snapshots that the rows refer to. */
  ghost function JoinedDates(rows: seq<Entry>, snapshots: seq<Snapshot>): set<int> {
    set e, s | e in rows && s in snapshots && s.id == e.snapshotId :: s.content.date
  }

  ghost predicate IsRange(dates: set<int>, dateMin: int, dateMax: int) {
    && dateMin in dates && (forall d :: d in dates ==> dateMin <= d)
    && dateMax in dates && (forall d :: d in dates ==> d <= dateMax)
  }

  /** The trigger recomputes the date range and the set hash from the rows it finds. */
  ghost predicate Recomputed(
    rows: seq<Entry>, snapshots: seq<Snapshot>, textHash: string -> string,
    setSha: string, dateMin: int, dateMax: int)
  {
    && IsRange(JoinedDates(rows, snapshots), dateMin, dateMax)
    && setSha == SetHash(ShaLines(ByOrdinal(rows)), textHash)
  }

  ghost predicate Ascending(entries: seq<Entry>) {
    forall i, j :: 0 <= i < j < |entries| ==> entries[i].ordinal <= entries[j].ordinal
  }

  lemma {:induction false} InsertOrdinalPermutes(e: Entry, sorted: seq<Entry>)
    ensures multiset(InsertOrdinal(e, sorted)) == multiset(sorted) + multiset{e}
  {
    if sorted != [] && e.ordinal > sorted[0].ordinal {
      InsertOrdinalPermutes(e, sorted[1..]);
      assert sorted == [sorted[0]] + sorted[1..];
    }
  }

  lemma {:induction false} InsertOrdinalAscends(e: Entry, sorted: seq<Entry>)
    requires Ascending(sorted)
    ensures Ascending(InsertOrdinal(e, sorted))
  {
    if sorted != [] && e.ordinal > sorted[0].ordinal {
      var tail := InsertOrdinal(e, sorted[1..]);
      InsertOrdinalAscends(e, sorted[1..]);
      InsertOrdinalPermutes(e, sorted[1..]);
      forall j | 0 <= j < |tail|
        ensures sorted[0].ordinal <= tail[j].ordinal
      {
        assert tail[j] in multiset(tail);
        if tail[j] != e {
          assert tail[j] in sorted[1..];
        }
      }
    }
  }

  lemma {:induction false} ByOrdinalSorts(rows: seq<Entry>)
    ensures multiset(ByOrdinal(rows)) == multiset(rows)
    ensures Ascending(ByOrdinal(rows))
  {
    if rows != [] {
      ByOrdinalSorts(rows[1..]);
      InsertOrdinalPermutes(rows[0], ByOrdinal(rows[1..]));
      InsertOrdinalAscends(rows[0], ByOrdinal(rows[1..]));
      assert rows == [rows[0]] + rows[1..];
    }
  }

  lemma HeadIsFirst(a: seq<Entry>, b: seq<Entry>, first: int)
    requires Ascending(a) && multiset(a) == multiset(b) && a != [] && b != []
    requires forall i :: 0 <= i < |b| ==> b[i].ordinal == first + i
    ensures a[0] == b[0]
  {
    assert b[0] in multiset(a) && a[0] in multiset(b);
    var i :| 0 <= i < |a| && a[i] == b[0];
    var j :| 0 <= j < |b| && b[j] == a[0];
    assert a[0].ordinal <= a[i].ordinal;
  }

  lemma TailsPermute(a: seq<Entry>, b: seq<Entry>)
    requires multiset(a) == multiset(b) && a != [] && b != [] && a[0] == b[0]
    ensures multiset(a[1..]) == multiset(b[1..])
  {
    assert a == [a[0]] + a[1..] && b == [b[0]] + b[1..];
    assert multiset(a[1..]) == multiset(a) - multiset{a[0]};
    assert multiset(b[1..]) == multiset(b) - multiset{b[0]};
  }

  /** Rows numbered consecutively have one ascending order. */
  lemma {:induction false} AscendingIsUnique(a: seq<Entry>, b: seq<Entry>, first: int)
    requires Ascending(a) && multiset(a) == multiset(b)
    requires forall i :: 0 <= i < |b| ==> b[i].ordinal == first + i
    ensures a == b
  {
    assert |multiset(a)| == |a| && |multiset(b)| == |b|;
    if a != [] {
      HeadIsFirst(a, b, first);
      TailsPermute(a, b);
      AscendingIsUnique(a[1..], b[1..], first + 1);
      assert a == [a[0]] + a[1..] && b == [b[0]] + b[1..];
    }
  }

  lemma {:induction false} RowsMembers(a: seq<Entry>, b: seq<Entry>)
    requires multiset(a) == multiset(b)
    ensures forall e :: e in a <==> e in b
  {
    forall e
      ensures e in a <==> e in b
    {
      assert e in multiset(a) <==> e in multiset(b);
    }
  }

  lemma JoinedDatesAreAll(
    rows: seq<Entry>, snapshots: seq<Snapshot>, ordered: seq<Snapshot>,
    factHash: Content -> string)
    requires multiset(ordered) == multiset(snapshots) && DistinctIds(snapshots)
    requires multiset(rows) == multiset(Enumerate(ordered, factHash))
    ensures forall d :: d in JoinedDates(rows, snapshots)
                   <==> exists s :: s in ordered && s.content.date == d
  {
    var entries := Enumerate(ordered, factHash);
    RowsMembers(rows, entries);
    PermutedMembers(ordered, snapshots);
    forall d
      ensures d in JoinedDates(rows, snapshots)
         <==> exists s :: s in ordered && s.content.date == d
    {
      if s :| s in ordered && s.content.date == d {
        var i :| 0 <= i < |ordered| && ordered[i] == s;
        assert entries[i] in entries && entries[i].snapshotId == s.id;
      }
    }
  }

  lemma OrderedRowsGiveHash(
    rows: seq<Entry>, ordered: seq<Snapshot>, factHash: Content -> string)
    requires multiset(rows) == multiset(Enumerate(ordered, factHash))
    ensures ShaLines(ByOrdinal(rows)) == Lines(ordered, factHash)
  {
    ByOrdinalSorts(rows);
    AscendingIsUnique(ByOrdinal(rows), Enumerate(ordered, factHash), 1);
  }

  lemma RangeIsDetermined(dates: set<int>, ordered: seq<Snapshot>, dateMin: int, dateMax: int)
    requires ordered != []
    requires forall d :: d in dates <==> exists s :: s in ordered && s.content.date == d
    ensures IsRange(dates, dateMin, dateMax)
       <==> dateMin == MinDate(ordered) && dateMax == MaxDate(ordered)
  {
    assert MinDate(ordered) in dates && MaxDate(ordered) in dates;
  }

  /**
   * In whatever order the table returns the inserted rows, the trigger accepts exactly the
   * set hash and the date range that the service computed.
   */
  lemma SealRecomputesFactSet(
    snapshots: seq<Snapshot>, factHash: Content -> string, textHash: string -> string,
    rows: seq<Entry>, setSha: string, dateMin: int, dateMax: int)
    requires Build(snapshots, factHash, textHash).Ok?
    requires multiset(rows) == multiset(Build(snapshots, factHash, textHash).value.entries)
    ensures var built := Build(snapshots, factHash, textHash).value;
            Recomputed(rows, snapshots, textHash, setSha, dateMin, dateMax)
            <==> && setSha == built.setSha
                 && dateMin == built.dateMin && dateMax == built.dateMax
  {
    var ordered := SortBy(snapshots, OrderKey);
    SortPermutes(snapshots, OrderKey);
    OrderedRowsGiveHash(rows, ordered, factHash);
    JoinedDatesAreAll(rows, snapshots, ordered, factHash);
    RangeIsDetermined(JoinedDates(rows, snapshots), ordered, dateMin, dateMax);
  }

  // ---------------------------------------------------------------- the fact set itself

  /** One line of 64 characters after the other, with a newline between each two. */
  ghost predicate Lined(text: string, lines: seq<string>) {
    && |text| == (if lines == [] then 0 else 65 * |lines| - 1)
    && (forall i :: 0 <= i < |lines| ==> LineAt(text, lines[i], i))
    && forall i :: 0 <= i < |lines| - 1 ==> BreakAt(text, i)
  }

  ghost predicate LineAt(text: string, line: string, i: nat) {
    65 * i + 64 <= |text| && text[65 * i..65 * i + 64] == line
  }

  ghost predicate BreakAt(text: string, i: nat) {
    65 * i + 64 < |text| && text[65 * i + 64] == '\n'
  }

  lemma LineShifts(text: string, head: string, tail: string, line: string, i: nat)
    requires |head| == 64 && text == head + "\n" + tail
    ensures LineAt(tail, line, i) ==> LineAt(text, line, i + 1)
    ensures BreakAt(tail, i) ==> BreakAt(text, i + 1)
  {
    if LineAt(tail, line, i) {
      assert text[65 * (i + 1)..65 * (i + 1) + 64] == tail[65 * i..65 * i + 64];
    }
  }

  lemma {:induction false} JoinIsLined(lines: seq<string>)
    requires FixedLength(lines)
    ensures Lined(Join(lines), lines)
  {
    var text := Join(lines);
    if |lines| == 1 {
      assert text[0..64] == text;
    } else if |lines| > 1 {
      var rest := lines[1..];
      JoinIsLined(rest);
      assert text == lines[0] + "\n" + Join(rest);
      forall i | 0 <= i < |lines|
        ensures LineAt(text, lines[i], i)
      {
        if i > 0 {
          LineShifts(text, lines[0], Join(rest), rest[i - 1], i - 1);
        }
      }
      forall i | 0 <= i < |lines| - 1
        ensures BreakAt(text, i)
      {
        if i > 0 {
          LineShifts(text, lines[0], Join(rest), rest[i - 1], i - 1);
        }
      }
    }
  }

  /** The snapshots in ascending order of their keys, numbered from one. */
  ghost predicate NumberedByKey(
    entries: seq<Entry>, ordered: seq<Snapshot>, factHash: Content -> string)
  {
    && |entries| == |ordered|
    && (forall i, j :: 0 <= i < j < |ordered| ==>
          KeyBefore(ordered[i].content.key, ordered[j].content.key))
    && forall i :: 0 <= i < |ordered| ==>
         && entries[i].ordinal == i + 1
         && entries[i].snapshotId == ordered[i].id
         && entries[i].factSha == factHash(ordered[i].content)
  }

  ghost predicate DateRange(snapshots: seq<Snapshot>, least: int, greatest: int) {
    && (forall s :: s in snapshots ==> least <= s.content.date <= greatest)
    && (exists s :: s in snapshots && s.content.date == least)
    && (exists s :: s in snapshots && s.content.date == greatest)
  }

  ghost predicate OneRun(snapshots: seq<Snapshot>) {
    forall s, t :: s in snapshots && t in snapshots ==> s.parseRun == t.parseRun
  }

  ghost predicate NoneRepeated(snapshots: seq<Snapshot>) {
    forall i, j :: 0 <= i < j < |snapshots| ==> snapshots[i].id != snapshots[j].id
  }

  /** A fact set exists for a non-empty list of different snapshots of one parse run. */
  lemma BuildSucceedsIff(
    snapshots: seq<Snapshot>, factHash: Content -> string, textHash: string -> string)
    ensures Build(snapshots, factHash, textHash).Ok?
       <==> snapshots != [] && OneRun(snapshots) && NoneRepeated(snapshots)
  {
    IdsAreDistinct(snapshots);
    if snapshots != [] {
      assert snapshots[0] in snapshots;
      if OneRun(snapshots) {
        assert forall i :: 0 <= i < |snapshots| ==> snapshots[i] in snapshots;
      }
    }
  }

  /**
   * What the fact set is: the snapshots in ascending key order with their hashes, the digest
   * of the version line and the hashes in that order, and the extreme dates.
   */
  lemma BuildMeans(
    snapshots: seq<Snapshot>, factHash: Content -> string, textHash: string -> string)
    returns (ordered: seq<Snapshot>, text: string)
    requires Stored(snapshots) && Build(snapshots, factHash, textHash).Ok?
    requires forall c :: c in Contents(snapshots) ==> |factHash(c)| == 64
    ensures multiset(ordered) == multiset(snapshots)
    ensures var built := Build(snapshots, factHash, textHash).value;
            && NumberedByKey(built.entries, ordered, factHash)
            && built.setSha == textHash("recent-retail-fact-set-v1\n" + text)
            && Lined(text, ShaLines(built.entries))
            && DateRange(snapshots, built.dateMin, built.dateMax)
  {
    ordered := SortBy(snapshots, OrderKey);
    AcceptedKeysDistinct(snapshots);
    SortSorts(snapshots, OrderKey);
    SortPermutes(snapshots, OrderKey);
    var lines := Lines(ordered, factHash);
    text := Join(lines);
    SortedContents(snapshots);
    forall i | 0 <= i < |lines|
      ensures |lines[i]| == 64
    {
      assert Contents(ordered)[i] in multiset(Contents(ordered));
    }
    JoinIsLined(lines);
    assert ShaLines(Enumerate(ordered, factHash)) == lines;
    forall i, j | 0 <= i < j < |ordered|
      ensures KeyBefore(ordered[i].content.key, ordered[j].content.key)
    {
      KeyLessMeans(ordered[i].content.key, ordered[j].content.key);
    }
    PermutedMembers(ordered, snapshots);
    assert FACT_SET_HASH_VERSION + "\n" == "recent-retail-fact-set-v1\n";
  }
}
