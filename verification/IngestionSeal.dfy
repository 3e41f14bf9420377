/**
 * From the ingestion of three collections to the seal over them: the rows that the sealing
 * service reads back are the rows whose number completion recorded.
 */
module IngestionSeal {
  import opened Common
  import opened Ingestion
  import opened IngestionRuns
  import opened IngestionHistory
  import opened HistoricalFacts
  import opened HistoricalSeal

  /** A collection ID, the parse runs it met, and everything that was run for it. */
  datatype Origin = Origin(start: Store, foreign: map<Artifact, ParseRun>, history: History)

  function TablesOf(origin: Origin): Store {
    Play(origin.start, origin.history)
  }

  /** The typed columns of the stored rows, in table order. */
  function Typed<T>(decode: StoredFact -> T, facts: seq<StoredFact>): (rows: seq<T>)
    ensures |rows| == |facts|
  {
    seq(|facts|, i requires 0 <= i < |facts| => decode(facts[i]))
  }

  /** What a query over a validated collection returns: its rows in any order, and its count. */
  ghost predicate ReadBack<T>(
    rows: seq<T>, accepted: nat, origin: Origin, decode: StoredFact -> T)
  {
    && Fresh(origin.start, origin.foreign)
    && Closed(TablesOf(origin))
    && accepted == TablesOf(origin).collection.value.accepted
    && multiset(rows) == multiset(Typed(decode, TablesOf(origin).facts))
  }

  lemma ReadBackIsComplete<T>(
    rows: seq<T>, accepted: nat, origin: Origin, decode: StoredFact -> T)
    requires ReadBack(rows, accepted, origin, decode)
    ensures |rows| == accepted
  {
    RowConservation(origin.start, origin.foreign, origin.history);
    assert |multiset(rows)| == |multiset(Typed(decode, TablesOf(origin).facts))|;
  }

  /**
   * The seal's comparison of row counts never refuses collections that were validated by
   * ingestion, whatever interruptions and changing answers led there.
   */
  lemma CountsNeverRefuseSeal(
    src: Sources,
    monthly: Origin, monthlyRow: StoredFact -> MonthlyFact,
    regional: Origin, regionalRow: StoredFact -> RegionalFact,
    market: Origin, marketRow: StoredFact -> MarketFact)
    requires Stored(src)
    requires ReadBack(src.monthly.facts, src.monthly.accepted, monthly, monthlyRow)
    requires ReadBack(src.regional.facts, src.regional.accepted, regional, regionalRow)
    requires ReadBack(src.market.facts, src.market.accepted, market, marketRow)
    ensures SealRefusal(src) != Some(CountMismatch)
  {
    ReadBackIsComplete(src.monthly.facts, src.monthly.accepted, monthly, monthlyRow);
    ReadBackIsComplete(src.regional.facts, src.regional.accepted, regional, regionalRow);
    ReadBackIsComplete(src.market.facts, src.market.accepted, market, marketRow);
  }
}
