# Grocery publication pipeline: Dafny model and proofs

The repository publishes Korean retail prices through a fail-closed pipeline: fetch, typed facts, human review, sealed revision, current pointer, public read. Its checks are spread over Python services, database triggers, a backup parser and a load-test receipt validator that were written separately and must agree with one another. This project models those checks and proves that they do.

Dafny checks the whole project with `dafny verify dfyconfig.toml`. Every theorem is stated for all inputs, all runs or all reachable states of its component.

## Components

- **Reviews, ActivationLog, ChannelSql, Channel.** Append-only review decisions and the two publication channels. Each transaction is one step, because the channel row is locked for its whole length; a refused transaction leaves the state as it was. `Channel.Service` is the stored state with its one mutating operation; the trigger conditions and the deferred consistency check appear in it as assertions that never fail.
- **BackupReplay, BackupRebuild.** The backup tool's parser replays an exported activation list. Both directions of its agreement with the service are proved, with the one case in which they part: a current revision whose review was superseded afterwards is not exported.
- **PublicationFacts, PublicationSeal, TextOrder.** Canonical ordering and hashing of a publication's facts, the seal trigger's aggregates, and the hash and date range that the trigger recomputes.
- **Products, DecimalArithmetic, Pricing.** Decimal arithmetic at a finite precision, and the price comparison and public display built on it. A number is a coefficient and a decimal scale; prices are integers, percentages are kept in tenths.
- **DecimalCoordinates, HistoryChart, ChartGeometry, HistoryLedger, Months.** The monthly chart, range meter, summary and year groups; `ChartGeometry` says of the data alone where everything is drawn. Prices are integers in hundredths of a won, coordinates integers in hundredths of an SVG unit, months the six-digit texts the tables store.
- **HistoricalFacts, HistoricalSeal, HistoricalDailyRead, HistoricalHistoryRead, HistoryChecks, HistoricalEdges.** A historical bundle is checked once when it is sealed; the public reads rely on that without checking again. The theorems say which of the reads' errors a sealed bundle makes unreachable, give the exact condition for the two that remain, and say which stored rows a page shows. `HistoryChecks` says what the history page does with facts that no seal has checked.
- **Ingestion, IngestionMeaning, IngestionRuns, IngestionHistory, IngestionComposite, IngestionSeal.** A collection is planned, filled part by part and completed; any run may stop after any transaction. `Ingestion.Tables` is the stored state, and `Ingestion.Fate` says how many transactions a process survives and which partitions lose their connection. `IngestionMeaning` says in terms of single rows what one transaction does to any tables. `IngestionRuns` assumes a source that answers alike every time and proves crash and rerun equivalence; `IngestionHistory` assumes nothing about requests and answers and proves what every history keeps; `IngestionComposite` proves that every validated collection is the result of one clean run composed of given answers; `IngestionSeal` connects that to the seal.
- **LoadPacing, LoadReport, LoadReceipt, ReportMeaning, ReceiptMeaning.** The load runner's pacing against an arbitrary non-decreasing clock, its report, and the validator that sees only rounded numbers. `ReportMeaning` says what a report tells about any list of answers, `ReceiptMeaning` which receipts the validator accepts.
- **SecretScan.** Streaming search for a credential over the chunks that reads return.

## Conventions

Database keys are natural numbers. Tables are sequences in whatever order the database returns them, so theorems about unordered queries hold for every order. SHA-256 digests are either functions passed as parameters, free of collisions on the values at hand where a lemma says so, or are represented by what they digest. Clocks, network answers, actors' permissions and review verdicts are parameters. Where the source raises, the model returns an error value.

Four findings are stated as exact conditions or with concrete inputs.

- The public display refuses a price comparison that the calculation produces when the change is nonzero but below a twentieth of a percent (`Pricing.DisplayAcceptsIff`, `Pricing.SmallChangeIsRefused`).
- The stored month pattern admits year 0, which the presentation refuses, and the 31-day window may reach before the first day of the calendar, so the reads of a sealed bundle have one condition each (`HistoricalHistoryRead.HistoryReadSucceeds`, `HistoricalDailyRead.RegionsReadSucceeds`, with sealed examples in `HistoricalEdges.EarlyReadsFail`).
- Superseding the review behind the current recent revision leaves it public, and from then on the backup tool refuses the database's inventory (`BackupReplay.ProducerAccepted`, `BackupRebuild.RejectionAfterActivation`).
- Because artifacts are content-addressed per request scope, two collections of one source and code manifest that receive the same page manifest for a partition can never both complete (`IngestionHistory.SecondCollectionNeverValidates`, `IngestionHistory.SecondCollectionIsBlocked`).

## Model

| member | source | states |
|---|---|---|
| Reviews.Ledger.RecordDecision | grocery/models.py:2008-2071 | One call stores the decision, replays an identical one, or refuses and leaves the ledger as it was; the outcome is the decision function of the old ledger. |
| Reviews.LinkExtendsTail | grocery/models.py:1924-1954 | In a linear ledger the supersede rules admit a decision only as the root of an empty generation or as the successor of its last decision. |
| Reviews.DecisionOutcomes | grocery/models.py:2008-2071 | The same decision again is a replay and another one under its ID a conflict; a fresh one is recorded exactly when its guards hold and it supersedes the last decision of its generation, whatever its verdict, or is the root of an empty one. |
| Reviews.RecordKeepsLinear | grocery/models.py:1862-1866 | Recording keeps every generation one chain: one root, each later decision superseding exactly the one before it, identifiers distinct, links backwards. |
| Reviews.EveryLedgerIsLinear | grocery/historical_review_models.py:80-156 | Every sequence of requests, admissible or not, leaves a linear ledger. |
| Reviews.NextRequestAddsItsDecision | grocery/models.py:2008-2071 | After any sequence of requests the next one keeps every row and adds its own decision exactly when that is fresh, admissible and extends its generation, and no other row. |
| Reviews.TailScanFindsLatest | grocery/models.py:2570-2576 | In every reachable ledger the quadratic tail scan returns exactly the last recorded decision of the generation. |
| Reviews.LatestIffNotSuperseded | grocery/models.py:2500-2505 | A decision is the last of its generation exactly when no row supersedes it, which is the test the transition service uses instead of the scan. |
| Reviews.NotSupersededIffLatest | grocery/models.py:2570-2576 | The two tests for a current review agree: not superseded if and only if the scan returns that decision alone. |
| Reviews.SupersededForever | grocery/models.py:1815-1821 | Supersession is permanent and no row is ever lost. |
| ActivationLog.WellFormedAppend | grocery/models.py:2521-2540 | A history extended by one event is well formed exactly when the old one was and the event fits it. |
| ActivationLog.WellFormedIsContiguous | grocery/migrations/0008_publication_activation.py:206-227 | Histories that the service can write satisfy the weaker numbering and link conditions of the database. |
| ActivationLog.FormatsMean | scripts/postgres_backup_restore.py:1098-1131 | A reason code is a capital letter and at most 63 capitals, digits and underscores, an evidence hash 64 lower-case hexadecimal digits. |
| ChannelSql.AssertChannelState | grocery/migrations/0008_publication_activation.py:165-230 | For rows with distinct positive sequences in any table order, the count, maximum, latest-target and self-join checks hold if and only if the rows are one contiguous history 1..n that folds to the pointer and version. |
| ChannelSql.CheckGivesHistory | grocery/migrations/0008_publication_activation.py:195-227 | From the four checks, the rows sorted by sequence are such a history. |
| ChannelSql.OrderedHistoryPasses | grocery/migrations/0008_publication_activation.py:195-227 | Every such history passes the four checks. |
| ChannelSql.LatestRow | grocery/migrations/0008_publication_activation.py:195-203 | The row with the greatest sequence. |
| ChannelSql.AnyBrokenLink | grocery/migrations/0008_publication_activation.py:207-227 | The self join finds an offending row exactly when one exists. |
| Channel.Service.Transition | grocery/models.py:2423-2543 | One transaction returns the decision on the old state and commits exactly it; the trigger, the one-row update and the deferred check never abort a transaction that passed the Python checks. `Channel.StoredIdDecides` and `Channel.AppliedIff` say what the decision is. |
| Channel.StoredIdDecides | grocery/models.py:2467-2476 | A request is answered from the log exactly when a row agrees with it in every field, with that row; when its operation ID is stored with any other field the answer is a conflict; an applied row agrees with its request in every field. |
| Channel.AppliedIff | grocery/models.py:2478-2543 | A transition is applied exactly when its operation ID is new, the version and the pointer are as it expects, its texts are well formed and, by operation and channel, the target is an unrevoked sealed revision, an earlier target, or absent. |
| Channel.Service.constructor | grocery/models.py:2392-2403 | An empty channel has version 0, no pointer and satisfies the invariant. |
| Channel.Service.RecordReview | grocery/models.py:2008-2071 | Recording a review on the same tables, with the whole new state. |
| Channel.Service.SealRevision | grocery/models.py:2547-2687 | Sealing writes the revision exactly when every review behind it is the approving tail of its generation, its shape is right and no row has its fact set and public copy; a sealed row that agrees in every column is returned instead, any other is a conflict, and nothing else changes. |
| Channel.SealOutcomes | grocery/models.py:2547-2687 | A revision is sealed exactly when every review behind it is an approval that no row supersedes, one of its own parse run for a recent revision and three different ones for a historical bundle, its columns are well formed, and its ID and its key are free; it is returned when a sealed row agrees in every column, and is a conflict when only the key does. |
| Channel.OneRowPerKey | grocery/models.py:2127-2132 | At most one row has a given fact set and public copy, so the row found for a repeated seal is the only candidate. |
| Channel.DraftIsStored | grocery/models.py:2127-2132 | An unsealed row is stored as given, without its seal, unless its ID or its key is taken, and no other row changes. |
| Channel.ServiceAgreesWithInsertGuard | grocery/migrations/0008_publication_activation.py:65-143 | For a new operation ID the Python checks accept a request if and only if the insert trigger accepts its row and the column formats are valid, in both channels. |
| Channel.InsertGuardMeans | grocery/migrations/0008_publication_activation.py:65-143 | In every consistent state the insert trigger admits a row exactly when the token is its ID, its sequence and previous revision follow the channel, and its target is unrevoked and sealed, an earlier target, or absent, as its operation and channel demand. |
| Channel.PointerGuardPasses | grocery/migrations/0008_publication_activation.py:39-55 | The pointer update that follows an inserted event always matches it. |
| Channel.PointerGuardMeans | grocery/migrations/0008_publication_activation.py:39-55 | After an insert the update trigger admits exactly one update of the channel, that of the inserted row. |
| Channel.TransitionKeepsInv | grocery/models.py:2467-2543 | Every request, applied, replayed or refused, keeps the invariant: linear reviews, well-formed log, version = length, pointer = last target, targets sealed. |
| Channel.StepKeepsInv | grocery/models.py:2547-2687 | So does every other step: recording a review, drafting a revision, sealing one. |
| Channel.RunKeepsInv | grocery/historical_activations.py:52-166 | So does every run of either channel. |
| Channel.RevokedNeverActivated | grocery/models.py:2497-2508 | Once a review behind a revision is superseded, no later ACTIVATE targets it in either channel, and no later ROLLBACK in the recent channel, over every run. |
| Channel.HistoricalRollbackReach | grocery/historical_activations.py:125-144 | In the historical channel a fresh, timely, well-formed rollback is applied exactly when its target is an earlier target other than the current one, revoked or not. |
| Channel.ReplayIsIdempotent | grocery/models.py:2467-2476 | Repeating an applied request after any further run returns its event and changes nothing. |
| Channel.OneSuccessPerVersion | grocery/models.py:2478-2482 | After one operation succeeds for a version, no other operation ID can ever succeed for it. |
| Channel.VersionCountsOperations | grocery/models.py:2534-2540 | The version equals the number of distinct stored operation IDs. |
| BackupReplay.ParseContract | scripts/postgres_backup_restore.py:986-1096 | The parser accepts a contract exactly when its header is valid and its activations are a well-formed history that ends at the exported pointer. |
| BackupReplay.ActiveRevisionMeans | scripts/postgres_backup_restore.py:115-151 | For any tables with distinct decisions the inventory holds a revision exactly when it is sealed, its decision approves its own parse run and no decision supersedes it. |
| BackupReplay.Replay | scripts/postgres_backup_restore.py:1047-1077 | The one-pass loop with the derived pointer, prior targets and seen IDs decides well-formedness and derives the pointer. |
| BackupReplay.EventFits | scripts/postgres_backup_restore.py:1098-1131 | One activation is accepted exactly when it extends the history before it. |
| BackupReplay.ProducerAccepted | scripts/postgres_backup_restore.py:117-151 | Every run of the recent service exports a contract that the parser accepts if and only if a revision is current, the version is at most 10,000, its entry count at most 100,000, and no decision supersedes the review behind it. |
| BackupReplay.RevokedIsNeverAccepted | scripts/postgres_backup_restore.py:146-150 | Once that review is superseded, no later run with the revision still current has an accepted export. |
| BackupRebuild.RevocationRefusesExport | scripts/postgres_backup_restore.py:1013-1022 | Every accepted export is one superseding decision away from a refused one, with the same revision current. |
| BackupRebuild.RejectionAfterActivation | grocery/models.py:1924-1954 | Concretely: approve, seal and activate gives an accepted export; rejecting the generation afterwards is recorded, leaves the revision current and makes the export refused. |
| BackupRebuild.AcceptedIsProducible | scripts/postgres_backup_restore.py:986-1096 | Conversely every accepted contract is the export of a run from the empty database over sealed, currently approved revisions with pairwise different keys. |
| BackupRebuild.SubmitStep | grocery/models.py:2467-2543 | The service applies the request behind the next event of a well-formed history. |
| BackupReplay.CanonicalIsDetermined | scripts/postgres_backup_restore.py:1155-1236 | For an accepted contract exactly one inspection result matches the inventory, and it passes the stricter inspection parser. |
| BackupReplay.InspectionsExist | scripts/postgres_backup_restore.py:1155-1199 | The inspection parser accepts exactly the inspections of accepted contracts and, beside them, only rollbacks claimed as the first or the second event, which no accepted contract has. |
| PublicationFacts.BuildIgnoresOrder | grocery/publication_facts.py:85-115 | Permuting the stored snapshots changes neither entries, ordinals, hashes nor errors. |
| PublicationSeal.BuildSucceedsIff | grocery/publication_facts.py:85-96 | A fact set exists exactly for a non-empty list of different snapshots of one parse run. |
| PublicationSeal.BuildMeans | grocery/publication_facts.py:85-115 | Its entries are the snapshots in ascending order of the eight key fields, numbered from one, each with its hash; the set hash is the digest of the version line and the hashes in that order, one a line; the dates are the least and the greatest. |
| PublicationFacts.AcceptedKeysDistinct | grocery/publication_facts.py:144-155 | Within one parse generation the eight-field sort key never ties. |
| PublicationFacts.SetHashIdentifiesContents | grocery/publication_facts.py:98-108 | Unless the hashes collide on the facts and the two texts at hand, two fact sets have equal set hashes if and only if they hold the same contents. |
| PublicationFacts.DistinctDatesDistinctHashes | grocery/publication_facts.py:98-108 | Concretely, a digest that collides on infinitely many facts meets the hypothesis for two one-snapshot generations, whose set hashes differ. |
| PublicationFacts.JoinInjective | grocery/publication_facts.py:107-108 | Joined lines of digest length can be read back. |
| PublicationFacts.SealCheckMeansContiguous | grocery/migrations/0007_publication_revision.py:309-328 | The five aggregates of the seal trigger hold if and only if the entries are distinct snapshots with ordinals exactly 1..n. |
| PublicationFacts.BuiltEntriesPassSeal | grocery/migrations/0007_publication_revision.py:309-328 | What the service builds always passes them. |
| PublicationSeal.SealRecomputesFactSet | grocery/migrations/0007_publication_revision.py:355-384 | In whatever order the table returns the inserted rows, the recomputed date range and ordinal-ordered hash accept exactly the range and the set hash that the service computed. |
| PublicationSeal.AscendingIsUnique | grocery/migrations/0007_publication_revision.py:367-380 | Consecutively numbered rows have one order by ordinal. |
| TextOrder.SortedIsUnique | grocery/publication_facts.py:98-98 | Two strictly sorted sequences with the same elements are equal, so a sort by distinct keys is determined. |
| TextOrder.KeyLessMeans | grocery/publication_facts.py:144-155 | The order of keys is the lexicographic one: at the first field that differs, the text with the smaller character at the first difference, or the proper prefix, comes first. |
| DecimalArithmetic.PercentageIsExactRounding | grocery/pricing.py:155-160 | Finite-precision division, multiplication by 100 and half-up quantizing give the half-up rounding of the exact rational for every divisor and every dividend with four digits less than the precision. |
| DecimalArithmetic.ApproximationRoundsAlike | grocery/pricing.py:155-160 | Half-up rounding ignores an error below half a unit that vanishes at ties. |
| DecimalArithmetic.TieIsExact | grocery/pricing.py:155-160 | At a tie of the result the quotient terminates, so the division is exact. |
| DecimalArithmetic.FourDigitsOfMarginAreNeeded | grocery/pricing.py:155-156 | With three digits of margin the chain prints 17/11 as 154.6 percent, though the exact percentage rounds to 154.5. |
| DecimalArithmetic.HalfEvenMeans | grocery/pricing.py:146-156 | A context rounds to the nearest last digit and a tie to the even one; there is only one such result. |
| Pricing.PercentageIsExact | grocery/pricing.py:128-172 | For all positive prices of any length the percentage is the exact percentage of the stored difference, rounded once, half away from zero, to one decimal. |
| Pricing.ComparisonIsExact | grocery/pricing.py:128-172 | For prices of at most 28 digits the whole fact is exact arithmetic on the prices. |
| Pricing.ComparisonMeans | grocery/pricing.py:128-172 | For such prices the difference is current less reference, the direction is how the two compare, and the percentage is the tenth of a percent nearest to the true one, ties away from zero. |
| Pricing.SnapshotValidIff | grocery/pricing.py:95-109 | A snapshot is valid exactly with a positive price and three references, none of price zero, that cover every period. |
| Pricing.DifferenceExactIff | grocery/pricing.py:146-146 | The stored difference is the true one exactly when the default 28-digit context can hold it. |
| Pricing.LongDifferenceIsRounded | grocery/pricing.py:146-146 | Differences of one digit more that end in 1 are rounded away. |
| Pricing.FitsColumns | grocery/models.py:1566-1577 | Prices of k digits give a difference of k digits and a percentage of k + 4, so twelve-digit prices fit their columns. |
| Pricing.SnapshotOrderIrrelevant | grocery/pricing.py:175-181 | The three facts come in WEEK, MONTH, YEAR order, cover every reference and do not depend on the order of the references. |
| Pricing.DisplayAcceptsIff | grocery/public_read.py:443-515 | The public display accepts a computed fact if and only if its reference is undated and the difference is zero or 2000 times its size reaches the reference. |
| Pricing.DisplayMeans | grocery/public_read.py:443-515 | For any stored reference and fact: accepted exactly when undated and either missing for its one reason without numbers, or with a difference and a percentage whose signs are the direction; then the bar reaches from the centre by the percentage, at most half the width, and is marked as capped exactly beyond that. |
| Pricing.SmallChangeIsRefused | grocery/public_read.py:494-515 | A price of 2002 against 2001 is computed and then refused. |
| Pricing.MissingIsAccepted | grocery/public_read.py:443-485 | The fact of a missing reference displays as unavailable exactly for an undated reference with the one reason code, and is refused as malformed otherwise. |
| Pricing.MicrobarGeometry | grocery/presentation.py:54-87 | An accepted bar stays in [0,100], touches 50, points the way of the difference and is capped at 50 wide. |
| DecimalCoordinates.CoordinateIsExact | grocery/vnext_presentation.py:190-203 | An SVG coordinate computed with three 28-digit roundings and a half-up quantum equals the exact rational rounded once, for every span that occurs. |
| DecimalCoordinates.KeptRoundsAlike | grocery/vnext_presentation.py:318-320 | Dropping digits in the addition does not move the two-decimal rounding. |
| HistoryChart.IndexRuns | grocery/vnext_presentation.py:205-209 | The loop partitions the data into maximal consecutive-month runs. |
| HistoryChart.MaximalRunsUnique | grocery/vnext_presentation.py:205-209 | There is only one such partition. |
| HistoryChart.GapsPartitionRange | grocery/vnext_presentation.py:237-245 | Data months and gap markers partition the displayed range, each month once, and their numbers add up. |
| HistoryChart.OneRunIffNoGap | grocery/vnext_presentation.py:205-245 | There is one run if and only if there is no gap marker. |
| HistoryChart.XIsExact | grocery/vnext_presentation.py:190-196 | Every printed x is the exact position rounded half up. |
| HistoryChart.XBounds | grocery/vnext_presentation.py:190-196 | x runs from 64 to 704 and never decreases with the month. |
| HistoryChart.XStrictIff | grocery/vnext_presentation.py:190-196 | Neighbouring months get different x if and only if the span is at most 64,000 months. |
| HistoryChart.YIsExact | grocery/vnext_presentation.py:198-203 | Every printed y is the exact position rounded half up. |
| HistoryChart.YBounds | grocery/vnext_presentation.py:198-203 | Higher prices are drawn no lower, within 16 and 240, and the extremes touch the edges. |
| HistoryChart.ScaleOfFits | grocery/vnext_presentation.py:182-188 | On stored prices and formatted months the spans are small enough for exact coordinates. |
| HistoryChart.DrawRuns | grocery/vnext_presentation.py:211-229 | One mean line and one band per run of two or more months, the band forwards on top and backwards below. |
| HistoryChart.BuildHistoryChart | grocery/vnext_presentation.py:164-287 | The chart is built exactly on at least two valid, strictly chronological months, and shows the maximal runs, all points and all gap markers. |
| HistoryChart.ChartStaysInPlot | grocery/vnext_presentation.py:190-236 | On stored prices all points are drawn inside the plot in the order of their months, from the left edge to the right one, each mean between its high and its low. |
| ChartGeometry.ChartDrawsData | grocery/vnext_presentation.py:190-245 | On stored prices the chart draws exactly its data: point i stands at the exact position of its month and mean, rounded once; every run of two or more months is a line through its means and a band along its highs and back along its lows; every missing month has one marker at its position. |
| ChartGeometry.InputIsMonthlyData | grocery/vnext_presentation.py:167-183 | The builder accepts exactly ordered positive prices in months that strictly increase. |
| ChartGeometry.DrawableAreLongRuns | grocery/vnext_presentation.py:211-229 | The segments are the runs of at least two points, in order, each once. |
| HistoryLedger.MeterIsExact | grocery/vnext_presentation.py:149-156 | A range-meter position is the exact percentage rounded half up. |
| HistoryLedger.RangeMeterIsExact | grocery/vnext_presentation.py:134-161 | Each of the three marks of a meter is the exact percentage of its own price on the scale, and 50 on an empty scale. |
| HistoryLedger.MeterGeometry | grocery/vnext_presentation.py:134-161 | A meter is built exactly on ordered prices, keeps their order in [0,100], spans the scale at its extremes and sits at 50 on an empty one. |
| HistoryLedger.BuildHistorySummary | grocery/vnext_presentation.py:72-89 | The summary exists exactly on non-empty chronological data and names the last month and the first of the least and of the greatest means. |
| HistoryLedger.BuildHistoryYearGroups | grocery/vnext_presentation.py:92-112 | Year groups are newest first with one open group, and read oldest first they are the data in order. |
| HistoryLedger.YearGroupsCut | grocery/vnext_presentation.py:92-112 | The groups are slices of the data, cut where the first four characters of the month change, each under that year, the last one first and alone marked as the latest. |
| Months.ValueThenNumber | grocery/historical_publications.py:33-39 | Formatting a month number and reading it back is the identity exactly for years 0 to 9999. |
| Months.NumberThenValue | grocery/historical_publications.py:33-39 | Reading a stored month and formatting it is the identity. |
| Months.FormatsIsPatternFromYearOne | grocery/vnext_presentation.py:43-50 | The presentation accepts exactly the stored months from year 1 on. |
| Months.TextOrderIsMonthOrder | grocery/historical_monthly_models.py:63-70 | Comparing stored months as text is comparing them as months. |
| HistoricalSeal.ValidateCompleteness | grocery/historical_publications.py:112-149 | The dictionary loops accept exactly equal non-empty series sets with a complete 36-month region and a shared date for every series, and name the first requirement that fails; the dates they return are exactly the shared ones. |
| HistoricalSeal.CompleteMeans | grocery/historical_publications.py:112-149 | Complete means that there is a fact, that the three tables know the same series, and that each series has a region with a row for each of the last 36 months and a region and date that both daily tables hold. |
| HistoricalSeal.SharedDatesAreShared | grocery/historical_publications.py:148-148 | The dates collected are exactly those on which some series and region has a regional and a market row. |
| HistoricalSeal.GroupMonths | grocery/historical_publications.py:130-132 | The dictionary holds for each series and region exactly its months. |
| HistoricalSeal.Seal | grocery/historical_publications.py:152-266 | Sealing succeeds if and only if all reviews, manifests, windows, counts and completeness requirements hold, and then freezes the facts with the least and the greatest date that some series and region share in both daily tables. |
| HistoricalSeal.Extremes | grocery/historical_publications.py:234-235 | The least and greatest shared date. |
| HistoricalSeal.SharedDatesInWindow | grocery/historical_publications.py:184-190 | Every shared date of a sealed bundle lies in the 31 days that end at its last date. |
| HistoricalSeal.MembershipIsConsistent | grocery/historical_public_read.py:159-186 | On a sealed bundle the three tables always agree about a series, which is listed exactly when the bundle holds it; a foreign manifest can only belong to a series outside it. |
| HistoricalDailyRead.DateOptionsAreSharedDates | grocery/historical_daily_read.py:34-55 | The window queries hide no shared date: the dates offered are exactly the shared dates of the series. |
| HistoricalDailyRead.RegionsReadSucceeds | grocery/historical_daily_read.py:28-91 | For a sealed series no integrity error is reachable: without a date the page exists if and only if the window stays in the calendar, with a date exactly on shared dates, otherwise the parameter is refused; the rows are exactly the regional facts of the date, each with its meter at the exact positions of its prices on the common scale and with the right market flag. |
| HistoricalDailyRead.RowsAreBuilt | grocery/historical_daily_read.py:62-91 | Range validation and meters never fail on stored prices. |
| HistoricalDailyRead.MarketsReadSucceeds | grocery/historical_daily_read.py:94-165 | For every series, region, date and page no integrity error is reachable on a sealed bundle: the window overflows exactly when the last date is among the first 30 days; otherwise the page exists exactly for a shared region and date and an existing page. Its rows are thirty at a time of a list that holds each stored market row of that series, region and date as often as the table does and no other; the total is their number, the extremes their lowest and highest price. |
| HistoricalDailyRead.AvailableRowOpens | grocery/historical_daily_read.py:87-87 | A region is marked as available exactly when its first market page for that date opens. |
| HistoricalDailyRead.PagesPartitionRows | grocery/historical_daily_read.py:139-144 | The pages in order are all the rows, none empty and none longer than thirty. |
| HistoricalDailyRead.RecoverySucceeds | grocery/historical_view_helpers.py:53-71 | The recovery page exists exactly when the window stays in the calendar, and shows the newest shared date of the series. |
| HistoricalHistoryRead.GroupByRegion | grocery/historical_history_read.py:41-46 | The validating loop reports the first problem, or fills the dictionary with each region's rows in order. |
| HistoricalHistoryRead.SelectPage | grocery/historical_history_read.py:48-83 | The checks up to the selected rows, in the source's order. |
| HistoryChecks.SelectionOutcomes | grocery/historical_history_read.py:28-83 | For any stored facts, sealed or not: the first unreadable fact decides the error; otherwise no facts, a last month in year 0 or no complete region is an error; otherwise the regions are exactly the complete ones, and the region and range are refused or select a stored row for each of the last months. |
| HistoryChecks.FirstProblemMeans | grocery/historical_history_read.py:121-127 | The first fact in table order whose month cannot be formatted or whose prices are not ordered and positive decides which error is reported. |
| HistoryChecks.CompleteRegionsIff | grocery/historical_history_read.py:145-150 | A region is complete exactly when it has each of the last 36 months and no month twice. |
| HistoricalHistoryRead.HistoryContext | grocery/historical_history_read.py:25-118 | The page is the selection, drawn by the summary, year-group and chart builders, or an integrity error when they refuse it. |
| HistoricalHistoryRead.CompleteIffCovers | grocery/historical_history_read.py:145-150 | On a sealed bundle the reader's completeness test is the seal's. |
| HistoricalHistoryRead.ProblemIffYearZero | grocery/historical_history_read.py:121-127 | The only fact of a sealed series that fails validation is one dated in year 0. |
| HistoricalHistoryRead.SelectedMonths | grocery/historical_history_read.py:153-160 | The selected rows are exactly the stored facts of the last months, in order, with the stored mean, low and high. |
| HistoricalHistoryRead.LastMonthsChart | grocery/vnext_presentation.py:205-245 | Their chart is one run without gap markers. |
| HistoricalHistoryRead.HistoryReadSucceeds | grocery/historical_history_read.py:25-118 | For a sealed series every integrity error is unreachable: the page exists if and only if no month lies in year 0 and the region and range are offered (36 without a region; 12 or 36, or 60 when covered, with a complete one). It then shows the stored low, mean and high of each of that many consecutive months up to the last, their summary and year groups, and one line and band with every vertex at its exact position. |
| HistoricalEdges.EarlyReadsFail | grocery/historical_identity_models.py:22-22 | Sealed bundles exist for which both conditions fail: a window before day 1 and a month in year 0. |
| Ingestion.Tables.PlanFor | grocery/historical_collection_plans.py:17-87 | Planning creates the collection once, returns it for the same plan and refuses a different one without a change. |
| IngestionRuns.PlanAcceptedIff | grocery/historical_collection_plans.py:17-87 | A plan of one to a hundred different scopes is accepted, unless the ID already has another plan; acceptance opens an empty collection or returns the stored one. |
| Ingestion.Tables.CreateFacts | grocery/historical_generation.py:95-110 | The fact loop appends every row, or stops at the first taken unique key. |
| Ingestion.KeysFreeIff | grocery/historical_generation.py:95-110 | The whole batch is inserted exactly when no key of it is stored in this collection and none occurs twice in the batch. |
| Ingestion.Tables.Persist | grocery/historical_generation_common.py:38-120 | One transaction creates a part with all its facts, replays a stored one before any identity is resolved, or changes nothing. |
| IngestionMeaning.PersistOutcomes | grocery/historical_generation_common.py:38-120 | For any tables a part is stored exactly when its answer is usable and fetched and either its pages were parsed before for this very part, which changes nothing, or nothing claims them, the ordinal, the scope or the keys, which adds one parse run, one part and the rows in order and leaves all else. |
| Ingestion.Tables.Complete | grocery/historical_collections.py:31-107 | Reconciliation validates the collection with the summed count and the ordered result parts, or changes nothing. |
| IngestionMeaning.CompletionOutcomes | grocery/historical_collections.py:31-107 | For any tables an open collection is validated exactly when its parts are those of the plan, each fetched for its scope and with as many rows as it and its parse run say; it then records the number of those rows and one result per scope in plan order. |
| IngestionMeaning.MaxOrdinalIsGreatest | grocery/historical_ingestion_workflow.py:82-92 | A run starts counting above the greatest ordinal used, whatever their order. |
| Ingestion.Tables.IngestPartition | grocery/historical_ingestion_workflow.py:89-154 | One partition with every point at which it can stop. |
| Ingestion.Tables.Run | grocery/historical_ingestion_workflow.py:63-159 | One run: plan, partition loop with its attempt ordinals, completion. |
| IngestionRuns.PartitionKeepsProgress | grocery/historical_ingestion_workflow.py:89-154 | Wherever a partition stops, the tables hold exactly a prefix of the plan's parts with their facts; it goes on exactly when its answer is acceptable and its attempt fits. |
| IngestionRuns.NextPartPersists | grocery/historical_generation_common.py:69-120 | The next part is stored exactly when its rows reconcile, its artifact is free and its keys are new. |
| IngestionRuns.StoredPartReplays | grocery/historical_generation_common.py:81-104 | A stored part is always replayed. |
| IngestionRuns.CompletionIff | grocery/historical_collections.py:39-106 | Completion succeeds exactly when every planned part is stored. |
| IngestionRuns.RunKeepsInv | grocery/historical_ingestion_workflow.py:63-159 | A run of any fate keeps the prefix invariant. |
| IngestionHistory.RunsAreOneHistory | grocery/historical_ingestion_workflow.py:63-159 | Interrupted runs of one request, one after the other, are the history that repeats that request. |
| IngestionRuns.UninterruptedRunIff | grocery/historical_ingestion_workflow.py:63-159 | From any reachable state an uninterrupted run succeeds if and only if every answer is acceptable and the attempt ordinals still fit their column. |
| IngestionRuns.CrashRerunEquivalence | grocery/historical_ingestion_workflow.py:82-159 | Whatever interrupted runs end in a validated collection, its parts, facts, parse runs, count and result digest are those of one uninterrupted run. |
| IngestionRuns.RerunSucceeds | grocery/historical_ingestion_workflow.py:82-159 | After any interruptions a clean rerun succeeds exactly when a first clean run would have, with the same result. |
| IngestionHistory.PlayIsSound | grocery/historical_ingestion_workflow.py:63-159 | Whatever is asked, however the answers change between runs and wherever each run stops, the tables keep the invariant: numbered attempts, every row owned by a part, every part supplied by one answer, a validated collection tallied. |
| IngestionHistory.AttemptsAreNumbered | grocery/historical_ingestion_workflow.py:82-92 | After every history the attempt ordinals of a collection are exactly 1..m. |
| IngestionHistory.RowConservation | grocery/historical_collections.py:43-106 | After every history the rows are as many as the parts count, and a validated collection has parts 1..n in plan order and an accepted count equal to the number of its rows. |
| IngestionHistory.EveryPartIsOneAnswer | grocery/historical_generation_common.py:67-120 | A stored part is never a mixture of answers: its artifact, parse run, count and rows in order are those of one acceptable answer given to one of the runs. |
| IngestionHistory.CompletionMissesOnlyParts | grocery/historical_collections.py:43-85 | Under that invariant completion succeeds if and only if no planned part is missing: the recount of a stored part cannot fail. |
| IngestionSeal.CountsNeverRefuseSeal | grocery/historical_publications.py:207-209 | For three collections validated by any histories, and read back in any order, the count comparison of the seal never refuses. |
| IngestionComposite.ChangingAnswersCompose | grocery/historical_ingestion_workflow.py:82-159 | Whatever runs and changing answers validate a collection, its parts, rows, parse runs, count and result digest are those of one uninterrupted run of a single request, each of whose answers was given in some run. |
| IngestionComposite.ValidatesIff | grocery/historical_ingestion_workflow.py:82-159 | A plan can be validated by some history if and only if some single request for it answers every partition acceptably with pages that no other collection parsed. |
| IngestionHistory.ForeignParseRunBlocks | grocery/historical_generation_common.py:81-104 | A validated collection had, for every partition, some answer whose pages no other collection had parsed. |
| IngestionHistory.SecondCollectionNeverValidates | grocery/historical_generation_common.py:81-104 | Once one collection stored a part, a collection with another ID whose answers to that partition repeat its pages is never validated, whatever its history. |
| IngestionHistory.UnchangedSourceIsCollectedOnce | grocery/historical_generation_common.py:81-104 | One clean run validates the first collection of an acceptable source; no runs of a second collection over the same answers ever validate it. |
| IngestionHistory.SecondCollectionIsBlocked | grocery/historical_generation_common.py:100-103 | The same for a concrete source of one scope, one page and one row. |
| IngestionRuns.ValidatedIsFrozen | grocery/historical_collection_models.py:149-171 | No later run, of any plan and with any answers, changes a validated collection. |
| IngestionRuns.ConflictingPlanIsRefused | grocery/historical_collection_plans.py:80-87 | A run of a different plan touches nothing. |
| LoadPacing.Submit | scripts/http_load_profile.py:642-676 | The submission loop, for every non-decreasing clock, yields a paced log and its intervals; each submission time is the reading that follows the first one at or past its paced time, and the loop gives up only when the clock has no more readings. |
| LoadPacing.Clock.SleepUntil | scripts/http_load_profile.py:723-733 | The wait returns after the first reading at or past the deadline. |
| LoadPacing.RunProfile | scripts/http_load_profile.py:623-682 | A finished run has submitted every request; its elapsed time is the reading that follows the first one at or past the planned end, less the first reading, and is at least the duration. |
| LoadPacing.NeverEarly | scripts/http_load_profile.py:642-648 | No request is submitted before its nominal time. |
| LoadPacing.FloorHolds | scripts/http_load_profile.py:644-648 | Two submissions are at least 90 ms apart. |
| LoadPacing.PacedHasNoBurst | scripts/http_load_profile.py:714-717 | A paced run never counts a burst violation. |
| LoadPacing.ViolationsAreShort | scripts/http_load_profile.py:714-717 | Burst violations are the intervals that are more than a microsecond below 90 ms, each counted once. |
| LoadPacing.LatenessRecurrence | scripts/http_load_profile.py:642-656 | Lateness follows L(i+1) = max(0, L(i) - 10 ms) + oversleep. |
| LoadPacing.LatenessIsWorstBacklog | scripts/http_load_profile.py:642-656 | Its closed form: the greatest, over all starting requests, of the summed oversleeps less 10 ms a request. |
| LoadReport.PercentileSplits | scripts/http_load_profile.py:491-496 | The percentile is an element that at least its share of the values does not exceed and less than its share lies below. |
| LoadReport.PercentilesOrdered | scripts/http_load_profile.py:526-528 | p50 <= p95 <= max on non-negative values. |
| LoadReport.SlotKinds | scripts/http_load_profile.py:315-348 | Seven of every ten requests ask for a catalog page, three for a detail page. |
| LoadReport.ActiveRequestCounter.Enter | scripts/http_load_profile.py:432-435 | After entering, the counter holds the active users and the peak of the whole activity so far. |
| LoadReport.ActiveRequestCounter.Leave | scripts/http_load_profile.py:437-439 | The same after leaving; the peak does not change. |
| LoadReport.PeakIsGreatest | scripts/http_load_profile.py:424-444 | The peak is reached at some moment and never exceeded at any. |
| LoadReport.PeakIsBounded | scripts/http_load_profile.py:424-466 | While each virtual user runs one request at a time the peak is at most 20, at most the requests begun, and at least one once any was begun. |
| LoadReceipt.PacedRunCompletes | scripts/http_load_profile.py:684-720 | Every finished paced run whose requests begin at most once each, one at a time per virtual user, satisfies the conditions of a completed run, and its report shows no burst. |
| LoadReceipt.ReportCounts | scripts/http_load_profile.py:499-560 | A completed run reports 7 and 3 tenths of its requests by kind, matching users and counts that add up. |
| ReportMeaning.ReportCountsAnswers | scripts/http_load_profile.py:499-560 | For any list of answers the report counts, by place in the list: catalog and detail pages, valid answers with status 200, answers with status 500 to 599, all others as errors, and the different virtual users. |
| ReportMeaning.RevisionConsistentIff | scripts/http_load_profile.py:516-525 | Revisions are consistent exactly when some answer succeeded and all that did show one token. |
| ReportMeaning.PercentileWithinIff | scripts/http_load_profile.py:491-496 | A percentile stays within a limit exactly when at least that share of the answers does. |
| ReportMeaning.ReportLatenciesAreAnswers | scripts/http_load_profile.py:526-528 | The reported p50, p95 and max are rounded latencies of answers at those shares of the list. |
| ReportMeaning.ReportFlagsMean | scripts/http_load_profile.py:499-594 | Every measured value and every flag of a report, for any list of answers, as a condition on the answers and measurements. |
| ReportMeaning.PassedIff | scripts/http_load_profile.py:499-594 | For any list of answers the report passes exactly when the kinds and users are as planned, no answer failed, all successes show one revision, server errors are below one in 200, 95 of 100 answers came within 500 ms, and elapsed time, jitter, intervals and concurrency keep their limits; the throughput clause adds nothing. |
| ReportMeaning.PassesIffGood | scripts/http_load_profile.py:499-594 | For a completed run the planned kinds and users, the least elapsed time and the greatest concurrency hold already, and the other conditions decide. |
| ReportMeaning.InvalidPageFailsRun | scripts/http_load_profile.py:506-515 | One invalid page with status 200 is an error and fails a completed run. |
| LoadReceipt.ElapsedIsFeasible | scripts/http_load_profile.py:1000-1019 | The true elapsed time lies in the interval that the validator reconstructs from two rounded numbers. |
| LoadReceipt.RateGateSurvivesRounding | scripts/http_load_profile.py:1021-1024 | Up to 9000 requests the rounded error rate is below 0.005 exactly when the true one is, which is 200 times the errors below the requests. |
| LoadReceipt.RateGateFailsOnLongRuns | scripts/http_load_profile.py:1021-1024 | At 100,010 requests it is not. |
| LoadReceipt.HalfUpIsProper | scripts/http_load_profile.py:588-604 | Rounding half up to three and six places is a rounding of the kind that these theorems assume. |
| LoadReceipt.FlagsPlausible | scripts/http_load_profile.py:1036-1066 | Every flag of an honest report is plausible to a reader of its rounded numbers. |
| ReceiptMeaning.ValidatesIffExplained | scripts/http_load_profile.py:840-1130 | The validator accepts a receipt if and only if its numbers are in range and agree with one another and, for each flag, some unrounded measurement behind the rounded numbers gives exactly that flag. |
| LoadReceipt.HonestReportsValidate | scripts/http_load_profile.py:840-1130 | The validator accepts the report of a completed run if and only if its latency, jitter, elapsed time and interval fit the float limit. |
| LoadReceipt.PassedReceiptIsSound | scripts/http_load_profile.py:1081-1130 | An accepted receipt that passed has all requests completed in the planned mix by every expected user, no errors, 200 times the server errors below the requests and no burst; its latency, elapsed time, throughput, jitter and interval miss no limit by more than half a rounding unit, and one elapsed time within the limits explains its elapsed time and its throughput together. |
| SecretScan.DescriptorContains | scripts/secret_check.py:341-351 | For every cut into non-empty chunks the loop finds a non-empty credential exactly when it occurs in the stream; an empty one exactly when there is a chunk. |
| SecretScan.OverlapSuffices | scripts/secret_check.py:350-351 | Keeping one byte less than the credential loses no occurrence and invents none. |

## Left out

- Row order: `ORDER BY` and the sorted labels of region options; rows and options are sequences or sets in any order.
- Actor and permission checks, production gates and secret loading: an authorised caller is assumed, and the guards on source, fetch and parse rows behind a review are one boolean, `admissible`.
- Reviews.Ledger.RecordDecision: the guards on the source, fetch, parse and coverage rows are the boolean `admissible`, since they read no ledger state.
- Channel.Service.RecordReview: the same boolean stands for the same guards.
- Channel.Service.SealRevision: the snapshot count and the coverage checks are not part of the operation, and a public copy revision is a key without its text format; the fact set itself is the subject of PublicationFacts.
- Channel rows before the first transition: a missing row and a bootstrapped row at version 0 are one state.
- Database transition capabilities as session settings: the token is an argument of the trigger predicates.
- UUID and JSON syntax, byte encodings, and the identity of SHA-256: uninterpreted.
- Channel.ServiceAgreesWithInsertGuard: the historical trigger's comparison of approved hashes with the collection's is one boolean fact about the target's reviews, because sealing fixed both hashes.
- The comparison of the stored entries when a sealed revision is replayed: its entries are immutable and determined by the fact-set hash.
- BackupReplay.ProducerAccepted: the inventory query's conditions on the approved mode, the generation's status and the row counts are fixed when a revision is sealed and are not compared again.
- PublicationFacts.SetHashIdentifiesContents: that the hashes do not collide on the given facts and texts is a hypothesis.
- Currency, unit and text formatting, labels, axis ticks and the string form of SVG numbers.
- The price trigger of the database, whose numeric division rule is not in the repository.
- HistoryChart.XIsExact: prices and months as the tables store them; spans of 10^20 and more are outside the exactness theorem, though the chart itself is defined for them.
- Months.FormatsIsPatternFromYearOne: texts are ASCII; other decimal digits that Python would accept cannot be stored.
- Freshness of a publication, catalog filtering and sorting, and every view, form, template and header.
- HistoricalSeal.Seal: the review of each collection is one boolean; the canonical payload and the digest of the bundle are not built, and counts are unbounded.
- The page form's upper limit of 100 pages, which makes more than 3000 markets unreachable through the form.
- Ingestion.Tables.PlanFor: the checks of source, dataset and window are one boolean of the request.
- Ingestion.Tables.Persist: the comparison of the rows with their request and the resolution of series, regions and markets are one flag of the answer each; both can differ from run to run.
- Ingestion.Tables.IngestPartition: a failure while recording a failed fetch leaves the attempt started, as a stop at that point does.
- Several collections ingested at once: other collections' parse runs, of the same parser and code manifest, are a fixed map.
- LoadPacing.Submit: times are real numbers, and floating-point rounding of the clock is not modelled.
- LoadPacing.RunProfile: the observations' schedule jitter and the collection of the results are not part of the contract; LoadReport takes the results as a list.
- LoadReport.PercentileSplits: the index uses the exact ceiling; the floating-point product that the source rounds up can differ for sizes that a profile does not produce.
- LoadReceipt.HonestReportsValidate: divisions are exact reals and only the reported rounding is modelled, with the source's slack for the rest; constant fields of the receipt are not compared.
- Threads and executors: the runner's results arrive as a list in submission order, which is how it collects them.
- Docker, subprocess and file handling of the scripts.
