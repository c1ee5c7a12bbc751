# Verification model of the market data center

A Dafny model of the parts of the market data center whose correctness is hardest to see by
reading: the regulation monitor and its published prices, the life of a Raw object, the repair of
daily volumes, the retirement of history, adjusted prices, and the opening-auction series writer.

## What is modelled

**Regulation monitor** (`regulation_calculator.py`, `regulation_monitor.py`). Returns are exact
reals above -1, prices whole ticks of 0.01, sessions increasing ordinals. `DeviationWindows` is the
forward evaluation of a deviation rule over every suffix window; `MonitorDay` one close of a stock
(events, count rules, resets, checkpoint) and one day over all stocks; `MonitorReports` says what a
close's events and reasons stand for. `TriggerPrice` and `MonitorThreshold` are the inverse: the price
at which a close would trigger a rule; `PublishedPrices` says what a published price means, with its
reachability, window start and reasons.
`ThresholdExactness` and `CountPrices` prove the inverse exact, `Lookahead` proves that tomorrow's
published price is the one tomorrow's close answers to, `LookaheadCounts` says what it is worth after a
gap and with several ordinary rules, `ScenarioPrices` models the second solver, `NextSessionResets` the
reset it clips its windows with, and `OneSessionPrices` says when the two publish the same price. `MonitorRuns`, `MonitorCompleteness`,
`MonitorCounts` and `MonitorPruning` are about whole runs: any number of sessions, any inputs;
`MonitorMarket` runs the day over all stocks and gives each stock such a run; `MonitorExample` is one.

**Raw objects** (`raw_store.py`, `raw_compression.py`, `raw_cleanup_service.py`,
`raw_retirement.py`). `RawLifecycle` is one object's files and registry rows under atomic steps, a
worker that may crash between any two of them and is started again, and any number of readers.
`RawStreams` is the byte level: bounded streaming verification and JSON lines.

**Volume repair** (`quantity_unit_repair.py`). `QuantityRepair` is the database as a value and each
transaction as a function of it, for any state other writers leave; `RepairRollback` and
`RepairCertification` prove the round trip and what a certificate means; `RepairEvidence` says when a
fact is to be repaired and with what, `RepairTransactions` what each transaction takes and writes;
`RepairHistory` is any
history of several runs' applies and rollbacks with other writers in between; `RepairDatabase` is the
same service as methods that update tables in place.

**History retirement** (`scripts/retire_history_before.py`). `HistoryArchive` is one transaction
with interference between its checks and its delete, whole applications with and without other
writers, reruns and restores;
`ArchiveRun` the chunked file and the table as the tool works through them.

**Derived prices** (`calculators.py`). `CorporateActions` defers actions to trading days,
`AdjustedSeries` builds both adjusted series and the returns, `HolderReturns` says what they mean for a
holder in terms of the actions, `EffectiveRecords` are the
two-pointer scans for share capital and classification memberships.

**Series writer** (`call_auction_market_series_writer.py`, `call_auction_market_series_service.py`).
`SeriesWriter` is the bounded queue, its producer and its consumer under every schedule;
`SeriesCollection` the sampling loop that submits one valid round per slot.

Hashes are free terms: equal exactly when what they were computed from is equal. Compression is
lossless. A row codec decodes what it encodes and an encoded row holds no line break (control
characters are escaped inside strings by section 7 of RFC 8259).

## Assumptions taken from the sources' callers

- A source's sessions are increasing and end at the session being closed; the next source's session
  is the previous one's successor and its calendar still lists the previous one (otherwise the program
  refuses the checkpoints); the rules in force and a stock's segment do not change along a run.
- A checkpoint's resets lie between the monitor start and the session being closed and its events
  before that session. Every day of every run meets this: `MonitorMarket.RunDays` never has to refuse.
- Threshold signs agree with their directions; a count rule is serious, needs at least one event
  and looks back at most ten sessions; each rule resets on its own level.
- Ordinary reads of the same session's return agree across the sources of a run (needed only for
  the completeness characterisation).
- Bars, share-capital records, snapshots and trading days arrive sorted, as the calculators sort them
  first; bars have one row per day.
- Within one undisturbed application of an archive, the plan's predicate and the foreign-key targets
  of the archived keys stay as they are.

## Where the program does less than its description

- The scenario solver slices `dates[-(window_days - 1):]`. For a one-session rule that slice is the
  whole calendar. `OneSessionPrices.PricesAgreeIff` is the exact condition on the published price: for a
  given index scenario it is the threshold's for all references and all rows on which the rule is
  complete and did not trigger today, if and only if the rule looks back more than one session or its
  reset is still to come; and the same over all rows on which it is complete, since the warning of a
  count rule also carries the prices of an ordinary rule that triggered.
  `OneSessionPrices.OneSessionRuleDisagrees` is a case: 5% up today against a flat index, a rule of 10%
  (10.48 against 11.00).
- A count rule's published price is the first ordinary rule's of its direction. A segment may have
  several, with different windows, and then it can be wrong. `CountPrices.CountPriceIsExactForEveryClose`
  is the exact condition, known before the close: the price answers for every close if and only if the
  rule is not one event short, or no close can be complete, or the first ordinary rule of the direction
  has the easiest price. `LookaheadCounts.CountLookaheadIsExactIff` is the condition on tomorrow's price.
  `CountPrices.TwoOrdinaryRulesDisagree` is a case (rules of 20% in one session and 10% in two: a close
  at 11.50 fires the count rule, the published price is 12.00).
- A comment says that a preview with an incomplete scope cannot revoke a certificate. That holds for a
  scope incomplete at preview (`RepairCertification.PartialPreviewKeepsCertificate`); one that became
  incomplete afterwards revokes it exactly as `RepairCertification.MissedFactDowngradesIff` says, for
  example `RepairCertification.GrownScopeRevokes`.
- Restoring an archive brings back rows that had been deleted by others between archiving and applying:
  `HistoryArchive.ApplyThenRestore` is the exact condition, `HistoryArchive.RestoreResurrects` a case.
- `close_and_wait` never returns once a persistence call raises something that is not an `Exception`,
  and otherwise always does: every schedule is finite (`SeriesWriter.SchedulesAreBounded`), and one
  that cannot go on has returned if and only if no logged call was fatal
  (`SeriesWriter.ReturnsIffNoFatal`). `SeriesWriter.DeadConsumerIsReachable` is a schedule with such a call.
- A storage error on a later endpoint discards the attempts a round already made:
  `SeriesCollection.CollectRound` states it.

## Model

| member | source | states |
|---|---|---|
| DeviationWindows.Eligible | src/market_data_center/regulation_calculator.py:95-106 | a rule's sessions are exactly those of its window on or after its reset |
| DeviationWindows.ExtremeLength | src/market_data_center/regulation_calculator.py:171-178 | the chosen suffix is extreme in the rule's direction among all lengths, and the shortest such one |
| DeviationWindows.TriggersIffSomeWindowMeets | src/market_data_center/regulation_calculator.py:157-178 | a complete evaluation triggers if and only if some suffix window meets the threshold |
| DeviationWindows.EvaluateDeviation | src/market_data_center/regulation_calculator.py:139-205 | the loop is incomplete exactly when an expected row is missing and otherwise triggers exactly when some window meets the threshold |
| MonitorReports.ReportsShortestExtreme | src/market_data_center/regulation_calculator.py:157-203 | a complete evaluation reports the shortest window no other deviates beyond: its deviation as the value, its first session as the start, and whether it meets the threshold |
| DeviationWindows.CompoundWindow | src/market_data_center/regulation_calculator.py:158-168 | the session-by-session product is the window's stock and index factor |
| DeviationWindows.CheckRows | src/market_data_center/regulation_calculator.py:147-155 | the check reports the first expected session that lacks a return |
| MonitorDay.EventFor | src/market_data_center/regulation_calculator.py:909-946 | a level, direction and kind get at most one event a close, exactly when one of their rules triggers, dated today and starting only where those rules' windows start |
| MonitorDay.MonitorEvents | src/market_data_center/regulation_calculator.py:909-946 | grouping triggered rules by direction and kind gives exactly the specified events, in order |
| MonitorReports.EventNamesItsRules | src/market_data_center/regulation_calculator.py:909-946 | the event of a level, direction and kind carries exactly the codes of all rules of that group that triggered and exactly the sessions on which their windows start; no event means none triggered |
| MonitorReports.CloseReportsEvents | src/market_data_center/regulation_calculator.py:909-1107 | in a whole close every event names exactly its triggered rules with their windows, every triggered rule is named by an event of its level, direction and kind, and events come by level and direction, one for each |
| MonitorReports.DayReportsEvents | src/market_data_center/regulation_calculator.py:949-1128 | the same for the events of every candidate of a day |
| MonitorDay.EvaluateRules | src/market_data_center/regulation_calculator.py:992-1020 | one missing price observation makes every verdict incomplete, and each deviation rule names its first missing session as a reason |
| MonitorReports.FirstUnpricedIsFirst | src/market_data_center/regulation_calculator.py:147-155 | the session a rule is incomplete for is the first of its window without a return |
| MonitorReports.CloseReasonsAre | src/market_data_center/regulation_calculator.py:968-1020 | a checkpoint keeps exactly what spoilt the close before any rule was looked at or, if nothing did, the first gap of each deviation rule; it is complete exactly when it keeps nothing |
| MonitorReports.TurnoverIsReported | src/market_data_center/regulation_calculator.py:992-1005 | on a complete close a turnover rule reports its own evaluation |
| MonitorDay.EvaluateCounts | src/market_data_center/regulation_calculator.py:1029-1065 | the count pass sets each count rule's verdict from the log and today's ordinary events |
| PublishedPrices.CountIsEventsInWindow | src/market_data_center/regulation_calculator.py:1038-1048 | the count is the number of logged ordinary price events of the direction dated in the last sessions of the window and not before the floor |
| PublishedPrices.CountVerdictCounts | src/market_data_center/regulation_calculator.py:1029-1065 | on a complete close a count rule triggers exactly when that many events, in the kept log and today, meet its requirement |
| PublishedPrices.FloorIsLatestReset | src/market_data_center/regulation_calculator.py:982-991 | windows and counts start no earlier than the latest of the monitor start and the resets of their level |
| MonitorDay.IndexStates | src/market_data_center/regulation_calculator.py:957-959 | checkpoints are indexed by symbol, and refused exactly when a symbol repeats |
| MonitorDay.CloseSymbol | src/market_data_center/regulation_calculator.py:967-1108 | one candidate's iteration produces the specified verdicts, events and checkpoint |
| MonitorDay.CalculateMonitorDay | src/market_data_center/regulation_calculator.py:949-1128 | a day fails exactly for repeated or out-of-step checkpoints and otherwise closes every candidate against its own checkpoint |
| TriggerPrice.RoundToTick | src/market_data_center/regulation_calculator.py:589-591 | rounding up gives the least tick price not below the value, rounding down the greatest not above it |
| TriggerPrice.RoundingIsExact | src/market_data_center/regulation_monitor.py:57-60 | a tick price is on the triggering side of a value if and only if it is on that side of the rounded value |
| TriggerPrice.BestPriceIsBest | src/market_data_center/regulation_monitor.py:151-174 | the search finds nothing only when no start has a positive price, and otherwise no start beats its answer |
| TriggerPrice.InversionIsExact | src/market_data_center/regulation_monitor.py:151-187 | a positive tick close makes some window meet the threshold if and only if it reaches the trigger price |
| MonitorThreshold.FindBest | src/market_data_center/regulation_monitor.py:151-174 | the search loop returns the best positive raw price with the factors it was found with |
| MonitorThreshold.SearchPrice | src/market_data_center/regulation_monitor.py:151-187 | with exact arithmetic the one-tick correction never changes the rounded price |
| MonitorThreshold.RoundedPriceSatisfies | src/market_data_center/regulation_monitor.py:175-183 | the rounded price always meets the threshold it was computed for |
| MonitorThreshold.FindThreshold | src/market_data_center/regulation_monitor.py:137-201 | checking the rows, searching, rounding and placing in the limits give the specified price threshold |
| MonitorThreshold.PublishThreshold | src/market_data_center/regulation_monitor.py:63-201 | the guards in their order, then the price of the rule or of the first ordinary rule |
| PublishedPrices.PriceThresholdMeans | src/market_data_center/regulation_monitor.py:137-201 | each answer of the search: the first gap of the history; no positive close fires; or the least extreme positive close that fires, reachable exactly when a price the limits allow reaches it, with the first of the best window starts |
| PublishedPrices.ThresholdNeedsItsGuards | src/market_data_center/regulation_monitor.py:63-136 | a price is searched exactly when every guard passes, for the rule itself or, one event short, for the first ordinary rule of its direction |
| PublishedPrices.FirstGuardNamesReason | src/market_data_center/regulation_monitor.py:74-98 | otherwise the reason given is that of the first guard that fails |
| PublishedPrices.OrdinaryIsFirst | src/market_data_center/regulation_monitor.py:120-133 | the ordinary rule a count rule refers to is the first one of its direction |
| ThresholdExactness.EligibleIsHistoryAndToday | src/market_data_center/regulation_monitor.py:137-144 | the evaluator's sessions are the searched history followed by today |
| ThresholdExactness.PriceThresholdInverts | src/market_data_center/regulation_monitor.py:137-187 | over complete rows the evaluation triggers if and only if the close reaches the price searched before it |
| ThresholdExactness.DeviationTriggersIffReached | src/market_data_center/regulation_monitor.py:63-201 | in a whole close, a deviation rule triggers if and only if the close is complete and reaches its published price |
| ThresholdExactness.PendingIsRetainedCount | src/market_data_center/regulation_monitor.py:99-115 | the threshold's count of earlier events is the evaluator's count over the retained log |
| ThresholdExactness.CountIsPendingPlusToday | src/market_data_center/regulation_calculator.py:1029-1065 | a count rule's verdict is the pending count plus one for an ordinary event of its direction today |
| ThresholdExactness.CountTriggersIffReached | src/market_data_center/regulation_monitor.py:99-135 | with one ordinary rule in its direction, a count rule fires if and only if the close is complete and reaches the published price |
| CountPrices.CountTriggersIffSomeOrdinaryReached | src/market_data_center/regulation_calculator.py:1021-1065 | with any number of ordinary rules, a count rule fires exactly when one more event is needed and the close reaches one of their prices |
| CountPrices.CountPriceIsExactIff | src/market_data_center/regulation_monitor.py:116-136 | one close is answered wrongly exactly when it is complete, one event short, and reaches another ordinary price but not the first |
| CountPrices.CountPriceIsExactForEveryClose | src/market_data_center/regulation_monitor.py:99-136 | the published price answers for every close if and only if the rule is not one event short, no close can be complete, or the first ordinary rule has the easiest price |
| CountPrices.CountRuleFiresOnRuns | src/market_data_center/regulation_calculator.py:1021-1065 | from every reachable checkpoint, with any ordinary rules, a count rule fires exactly on a complete close one event short that reaches some ordinary price |
| CountPrices.TwoOrdinaryRulesDisagree | src/market_data_center/regulation_monitor.py:122-136 | two ordinary rules of different windows, accepted together, for which the published price is wrong |
| MonitorRuns.CloseMovesResets | src/market_data_center/regulation_calculator.py:1093-1107 | one close keeps the resets ordered and moves each to the next session exactly for the events that reset it |
| MonitorRuns.IncompleteIsSilent | src/market_data_center/regulation_calculator.py:1015-1036 | a close with any reason emits nothing and moves no reset |
| MonitorRuns.PriceWindowsRespectResets | src/market_data_center/regulation_calculator.py:982-991 | every window of a price event starts on or after the reset of its level |
| MonitorRuns.ResetsStayOrdered | src/market_data_center/regulation_calculator.py:1093-1107 | in every reachable checkpoint the serious reset is at most the abnormal one, which is at most the next session |
| MonitorRuns.ResetsMoveForward | src/market_data_center/regulation_calculator.py:1093-1107 | along every unbroken run both resets only move forward |
| MonitorRuns.CompleteChain | src/market_data_center/regulation_calculator.py:968-981 | a complete checkpoint has only complete checkpoints before it |
| MonitorRuns.EmissionNeedsCompleteness | src/market_data_center/regulation_calculator.py:1015-1023 | only complete closes emit events, dated that session |
| MonitorRuns.DisjointWindows | src/market_data_center/regulation_calculator.py:982-991 | every window of a later ordinary price event starts after the earlier one, and every later price window after a serious event |
| MonitorCompleteness.CompleteIffUnbrokenChain | src/market_data_center/regulation_calculator.py:968-1020 | a checkpoint is complete if and only if the stock has an unbroken chain of applicable, priced closes from the monitor start |
| MonitorCompleteness.BrokenStaysBroken | src/market_data_center/regulation_calculator.py:968-1020 | once broken, a chain stays broken, its reasons only grow, it emits nothing and its resets are frozen |
| MonitorCompleteness.MissedSessionIsFinal | src/market_data_center/regulation_calculator.py:970-974 | a stock that misses a session never has a complete checkpoint again |
| MonitorCounts.CompleteCloseCountsBelow | src/market_data_center/regulation_calculator.py:1038-1107 | a complete close leaves every count below its requirement |
| MonitorCounts.CountsStayBelow | src/market_data_center/regulation_calculator.py:1024-1048 | in every reachable checkpoint the un-reset ordinary events of each count window are fewer than required |
| MonitorCounts.PendingStaysBelow | src/market_data_center/regulation_monitor.py:99-115 | before every session of every run fewer events are pending than a count rule requires |
| MonitorCounts.CountRuleFiresExactly | src/market_data_center/regulation_monitor.py:99-135 | from every reachable checkpoint a count rule fires exactly at its published price, and only one event short |
| MonitorCounts.NoEventCountsTwice | src/market_data_center/regulation_calculator.py:1038-1048 | no ordinary event contributes to serious hits on two sessions |
| MonitorCounts.CountHitResets | src/market_data_center/regulation_calculator.py:1066-1103 | a firing count rule moves both resets to the next session |
| MonitorExample.RunTheoremsApply | src/market_data_center/regulation_calculator.py:949-1128 | a run of two closes that meets the hypotheses above: both emit an ordinary event, and the count rule counts the first on its own day only |
| MonitorMarket.EachStockHasItsRun | src/market_data_center/regulation_calculator.py:949-1128 | over any days and stocks, the checkpoint a stock has after a day is the one its own run leaves, whatever the other stocks do |
| MonitorMarket.RunDays | src/market_data_center/regulation_calculator.py:949-1128 | day after day the calculation refuses nothing it produced itself, and its outcomes are the specified ones |
| MonitorPruning.CloseIgnoresPruning | src/market_data_center/regulation_calculator.py:1024-1028 | one close from checkpoints that differ in pruned events agrees on everything but the log |
| MonitorPruning.PruningIsInvisible | src/market_data_center/regulation_calculator.py:962-1028 | along every run the log pruned to ten sessions gives the verdicts and events of an unpruned log |
| MonitorPruning.FullLogKeepsEverything | src/market_data_center/regulation_calculator.py:1024-1036 | the log it is compared with forgets nothing: along an unbroken run it holds every event any earlier close emitted |
| Lookahead.ThresholdCarriesOver | src/market_data_center/regulation_monitor.py:339-360 | tomorrow's threshold seen from today is today's threshold seen from tomorrow |
| Lookahead.NextCloseIsComplete | src/market_data_center/regulation_calculator.py:968-1020 | after a complete close, an applicable stock with both returns closes completely again |
| Lookahead.LookaheadCommutes | src/market_data_center/regulation_monitor.py:311-361 | running the next session fires a rule exactly at the price published today from the post-close checkpoint, its resets included |
| LookaheadCounts.BrokenLookahead | src/market_data_center/regulation_monitor.py:90-97 | after a close with a gap no rule fires tomorrow and no price is published for it |
| LookaheadCounts.CountLookaheadIsExactIff | src/market_data_center/regulation_monitor.py:99-201 | with any ordinary rules, the count price published today answers for every close of tomorrow if and only if the rule is not one event short or the first ordinary rule has the easiest price for tomorrow |
| Lookahead.ProjectClose | src/market_data_center/regulation_monitor.py:297-361 | the projection publishes both thresholds of every rule, and its branch names exactly the resets the close causes |
| ScenarioPrices.ResetMovesForward | src/market_data_center/regulation_calculator.py:53-86 | the reset in force tomorrow is never before the one in force today |
| NextSessionResets.ResetIsLatest | src/market_data_center/regulation_calculator.py:53-86 | the reset in force is the latest date set for its level by that day: by the explicit boundary, or by an announcement of the level that was observed, concerns a finished period and is published, through the date it names or else the first session after it; none exactly when nothing is set |
| NextSessionResets.FirstAfterIsNext | src/market_data_center/regulation_calculator.py:71-72 | an announcement without a date resets on the least calendar day after its publication |
| NextSessionResets.ResolveReset | src/market_data_center/regulation_calculator.py:53-86 | collecting the dates of a level and taking the maximum gives that latest date |
| NextSessionResets.SolveTomorrow | src/market_data_center/regulation_calculator.py:53-86 | the scenario prices of a rule are those solved from the history clipped with the latest date set for its own level by the next session |
| ScenarioPrices.SolverHistoryIsExact | src/market_data_center/regulation_calculator.py:607-612 | the solver's history is the threshold's if and only if the rule looks back more than one session or nothing follows the reset |
| OneSessionPrices.PricesAgreeIff | src/market_data_center/regulation_calculator.py:594-752 | the published price is the threshold's for all references and all rows on which the rule is complete and untriggered today, and for all on which it is complete, if and only if it looks back more than one session or its reset is still to come |
| OneSessionPrices.OneSessionPricesDiffer | src/market_data_center/regulation_calculator.py:607-752 | for every other rule, reset and scenario, rows on which the rule is complete and untriggered, and a reference, for which the two differ |
| OneSessionPrices.OneSessionRuleDisagrees | src/market_data_center/regulation_calculator.py:607-752 | a small case: 5% up today, a one-session rule of 10% that stays untriggered, 10.48 against 11.00 |
| ScenarioPrices.CompleteWindowCoversTomorrow | src/market_data_center/regulation_calculator.py:620-634 | after a complete evaluation the incomplete-window skip drops nothing |
| ScenarioPrices.ScenarioPriceIsThreshold | src/market_data_center/regulation_calculator.py:594-657 | where the two share their history, a positive scenario price is the threshold's for the same reset, reference and scenario |
| ScenarioPrices.PricesOrderedByScenario | src/market_data_center/regulation_calculator.py:618-657 | trigger prices are ordered as their index scenarios wherever they exist |
| ScenarioPrices.SolveScenarios | src/market_data_center/regulation_calculator.py:594-691 | the loops publish exactly one warning per solvable scenario, in scenario order |
| PublishedPrices.WarningMeans | src/market_data_center/regulation_calculator.py:618-657 | a warning is about a solvable window no other beats, ties decided by its start, with its price rounded to the tick and reachable exactly when a tick price the limit allows reaches it; without a warning no window is solvable |
| RawLifecycle.EveryExecutionIsSound | src/market_data_center/raw_cleanup_service.py:99-111 | every interleaving of worker steps, crashes, restarts and readers keeps the object and all readers sound |
| RawLifecycle.ReadsAreSafe | src/market_data_center/raw_store.py:122-145 | a finished read returns exactly the manifest's bytes, and fails only after a committed declaration |
| RawLifecycle.RemovalIsSafe | src/market_data_center/raw_retirement.py:139-169 | plaintext goes only after registration or declaration, the last representation only after declaration, and a confirmation means nothing is online |
| RawLifecycle.PublicationIsExclusive | src/market_data_center/raw_compression.py:151-181 | from any state a gzip is published exactly from the complete temporary of the worker and never over another |
| RawLifecycle.TemporaryEndsWithItsOperation | src/market_data_center/raw_compression.py:160-182 | a temporary is made exactly for plaintext without a gzip under a free name, and its operation drops it before it ends |
| RawLifecycle.TemporariesAreOwned | src/market_data_center/raw_compression.py:160-182 | a temporary another operation left is neither overwritten, linked nor dropped |
| RawLifecycle.AlteredIsKept | src/market_data_center/raw_compression.py:136-221 | an object with an altered file is left as it is by both services: nothing linked, registered, unlinked or declared |
| RawLifecycle.RegistrationsStand | src/market_data_center/raw_cleanup_service.py:99-111 | a registration is never replaced by another representation, and none is made of a declared object |
| RawLifecycle.ClearedAgainstGzip | src/market_data_center/raw_compression.py:186-221 | plaintext is cleared for removal exactly when the registered gzip and the plaintext both hold the manifest content |
| RawLifecycle.ConfirmedWhenGone | src/market_data_center/raw_retirement.py:139-169 | a retirement is confirmed exactly when both files are gone, and an unlink of a missing file stops it |
| RawLifecycle.FreshReadFinishes | src/market_data_center/raw_store.py:122-145 | after every execution a reader left alone finishes within four steps, with the content unless the object was declared |
| RawLifecycle.OneRerunCompletes | src/market_data_center/raw_compression.py:136-221 | from any crash point one uninterrupted rerun archives the object, or retires it |
| RawLifecycle.RerunsAreExecutions | src/market_data_center/raw_cleanup_service.py:99-111 | any execution can crash, be started again in either service and run to its end, with the readers as they were and the files and registry as the crash left them |
| RawLifecycle.CompressionFinishes | src/market_data_center/raw_cleanup_service.py:99-111 | undisturbed compression ends with a registered gzip, no plaintext and a confirmation |
| RawLifecycle.RetirementFinishes | src/market_data_center/raw_retirement.py:139-169 | undisturbed retirement of a sound object ends confirmed |
| RawLifecycle.RawObject.PublishGzip | src/market_data_center/raw_compression.py:136-183 | publication takes the modelled steps: temporary, hard link without overwriting, cleanup, or recovery of a published file |
| RawLifecycle.RawObject.RemoveVerifiedPlaintext | src/market_data_center/raw_compression.py:186-221 | removal takes the modelled steps, including the return after a crash that already unlinked |
| RawLifecycle.RawObject.Compress | src/market_data_center/raw_cleanup_service.py:99-111 | one object of the loop ends as undisturbed compression does, archived when it was sound and undeclared |
| RawLifecycle.RawObject.VerifyAndDeclare | src/market_data_center/raw_retirement.py:57-104 | only the manifested content is declared for removal |
| RawLifecycle.RawObject.RemoveVerified | src/market_data_center/raw_retirement.py:139-169 | declared representations are unlinked, checked to be gone and confirmed |
| RawLifecycle.RawObject.Purge | src/market_data_center/raw_retirement.py:126-136 | a purge of a sound object leaves nothing online, declared and confirmed |
| RawStreams.ByteSource.Read | src/market_data_center/raw_compression.py:21-22 | a reader may split its content any way it likes |
| RawStreams.VerifyStream | src/market_data_center/raw_compression.py:74-101 | for every split the stream is accepted exactly when size, hash and rows match, is copied unchanged, and is read at most one byte past its size |
| RawStreams.WrittenMatches | src/market_data_center/raw_store.py:74-95 | a written object passes its own manifest's verification |
| RawStreams.SplitEncoded | src/market_data_center/raw_store.py:105-111 | splitting written rows at line breaks gives exactly their encodings |
| RawStreams.SplitLinesSplits | src/market_data_center/raw_store.py:107-108 | any bytes are split at exactly their line breaks and nothing of them is lost |
| RawStreams.ReadReturnsWritten | src/market_data_center/raw_store.py:97-145 | reading back returns the written rows, from plaintext or from gzip |
| RawStreams.ReadsSurviveCompression | src/market_data_center/raw_store.py:97-145 | the same along every execution of the object's life until a declaration |
| RawStreams.RawStore.WriteJsonl | src/market_data_center/raw_store.py:42-95 | writing refuses an existing logical object and otherwise stores the encoded rows with their manifest |
| RawStreams.RawStore.ReadJsonl | src/market_data_center/raw_store.py:97-120 | reading checks size, hash, lines and rows in that order; success returns the decoded lines of bytes with the manifest size and hash |
| RawStreams.ReadsOnlyManifested | src/market_data_center/raw_store.py:97-145 | whatever the files hold, a read succeeds with some rows if and only if the plaintext, or without one the gzip, holds bytes of the manifest size and hash whose lines decode to exactly those rows, as many as the manifest says |
| RawStreams.AlteredContentIsRefused | src/market_data_center/raw_store.py:97-145 | under the manifest of some rows a read returns those rows or fails, whatever the files hold |
| QuantityRepair.ActionsCompareAndSet | src/market_data_center/quantity_unit_repair.py:727-844 | from any state, a batch's actions change a fact only from its previewed to its repaired state |
| QuantityRepair.BatchComparesAndSets | src/market_data_center/quantity_unit_repair.py:668-721 | the same for one committed batch |
| QuantityRepair.BatchLength | src/market_data_center/quantity_unit_repair.py:690-698 | a batch is never empty while actions remain, and is one action or within the batch size |
| RepairTransactions.BatchStopsWhenFull | src/market_data_center/quantity_unit_repair.py:690-698 | a batch ends only with the plan or before an action that no longer fits |
| RepairTransactions.BatchIsBounded | src/market_data_center/quantity_unit_repair.py:690-698 | a transaction of several actions is about no more items than the batch size, although large groups are counted as 500 |
| QuantityRepair.NeverBothMatchedAndApplied | src/market_data_center/quantity_unit_repair.py:746-761 | a fact is never at once in its previewed state and already repaired |
| RepairTransactions.ItemTransaction | src/market_data_center/quantity_unit_repair.py:727-844 | everything one item writes: a record of what was found in any case, and exactly when the fact and its evidence are as previewed the repaired fact and its certificate; already applied means that the earliest applied record of the item describes the fact |
| RepairTransactions.RollbackTransaction | src/market_data_center/quantity_unit_repair.py:1000-1052 | everything one rollback writes to facts and audit: the outcome in any case, and the restored fact exactly when it is what the record left |
| RepairTransactions.RollbackWithholds | src/market_data_center/quantity_unit_repair.py:1022-1045 | a restoring rollback withholds the certificates of both lineages and touches no other |
| QuantityRepair.OtherPlansUntouched | src/market_data_center/quantity_unit_repair.py:1000-1024 | rolling back one record leaves a fact derived by another run as it is |
| QuantityRepair.RollbackComparesAndSets | src/market_data_center/quantity_unit_repair.py:1000-1024 | rolling back one record changes a fact only while it equals the recorded after state, and then to the recorded original |
| QuantityRepair.BatchIsProgress | src/market_data_center/quantity_unit_repair.py:668-721 | a batch from any progress point is the same run stopped later, with the cursor moved exactly past its actions |
| QuantityRepair.ResumptionIsExactlyOnce | src/market_data_center/quantity_unit_repair.py:668-721 | however a run is cut by crashes, it performs a prefix of the actions once and in order, and enough batches finish it |
| RepairTransactions.FreshRunIsExactlyOnce | src/market_data_center/quantity_unit_repair.py:651-721 | a new run performs a prefix of the actions from the very first one, each once and in order |
| RepairHistory.RollbackAllComparesAndSets | src/market_data_center/quantity_unit_repair.py:961-1051 | a whole rollback changes a fact only if some selected record names it and the fact was exactly that record's after state, and leaves it restored |
| RepairHistory.RollbackAllSparesOtherPlans | src/market_data_center/quantity_unit_repair.py:961-1051 | a whole rollback of one plan leaves every fact another run derived as it is |
| RepairHistory.EveryHistoryIsSound | src/market_data_center/quantity_unit_repair.py:727-1051 | from an empty audit, any history of applies and rollbacks by any runs with other writers in between keeps the audit sound |
| RepairHistory.EveryChangeIsAccountedFor | src/market_data_center/quantity_unit_repair.py:727-1051 | in every history each change of a fact is a repair from its previewed state, a rollback of that run's own derived fact, or another writer's |
| RepairHistory.WritesAreArbitrary | src/market_data_center/quantity_unit_repair.py:727-1051 | the other writers of a history may leave any facts, lineage, certificates and records of their own |
| RepairHistory.PlansRoundTripInEveryHistory | src/market_data_center/quantity_unit_repair.py:636-1051 | after every history, applying any part of a new plan and rolling it back restores every fact |
| RepairHistory.ResumptionAmidWrites | src/market_data_center/quantity_unit_repair.py:668-721 | with any writes and other runs' records between batches the run still audits a prefix of its items once and in order, the cursor stands just past it, and enough batches finish |
| RepairRollback.ActionsAreUndoable | src/market_data_center/quantity_unit_repair.py:727-844 | after any part of a plan every applied record still describes its fact and holds the original |
| RepairRollback.RollbackUndoesOne | src/market_data_center/quantity_unit_repair.py:1000-1052 | rolling back one applied record restores its fact and leaves the others undoable |
| RepairRollback.ApplyThenRollbackRestores | src/market_data_center/quantity_unit_repair.py:951-1052 | applying any part of a plan and rolling it back restores every fact's volume and lineage, in any order |
| RepairCertification.AlreadyCorrectMeansBacked | src/market_data_center/quantity_unit_repair.py:273-300 | a fact is judged already correct if and only if exactly one Raw object holds its key and agrees with it |
| RepairEvidence.RepairMeansMappedFromLots | src/market_data_center/quantity_unit_repair.py:225-305 | a fact is to be repaired if and only if exactly one Raw object holds its key, is of a legacy schema and agrees on everything else, and the record is a hundred times the nonzero volume or, where there is no volume, not a whole number of lots |
| RepairEvidence.EvidenceIsTheRecord | src/market_data_center/quantity_unit_repair.py:225-305 | the target volume and hash of an evaluation are those of the one Raw record |
| RepairEvidence.RepairedIsBacked | src/market_data_center/quantity_unit_repair.py:763-836 | applying a matched repair leaves a fact that the Raw object of its new lineage backs, with the volume of the record |
| RepairCertification.CertifiedMeansEveryFactBacked | src/market_data_center/quantity_unit_repair.py:847-897 | a new certificate means every fact now referencing the ingestion is in the plan, unchanged and backed by Raw |
| RepairCertification.BackedIngestionIsCertified | src/market_data_center/quantity_unit_repair.py:847-905 | a complete, unchanged and backed ingestion is certified |
| RepairTransactions.CertificationIsExact | src/market_data_center/quantity_unit_repair.py:847-905 | an ingestion is certified if and only if the plan covers exactly the facts that now reference it, all correct and unchanged; otherwise the certificate is withheld, unless an earlier one stands against a plan that speaks for a part |
| RepairCertification.PartialPreviewKeepsCertificate | src/market_data_center/quantity_unit_repair.py:887-897 | a scope incomplete at preview never takes a certificate away |
| RepairCertification.PartialPlanKeepsCertificate | src/market_data_center/quantity_unit_repair.py:847-897 | any part of a plan keeps the certificate of an ingestion whose groups were all partial at preview |
| RepairCertification.MissedFactDowngradesIff | src/market_data_center/quantity_unit_repair.py:856-897 | exactly when a plan that now misses a fact does |
| RepairCertification.GrownScopeRevokes | src/market_data_center/quantity_unit_repair.py:856-897 | a plan complete at preview that does |
| RepairDatabase.Database.ApplyItem | src/market_data_center/quantity_unit_repair.py:727-844 | the in-place item transaction is its specification |
| RepairDatabase.Database.CertifyGroup | src/market_data_center/quantity_unit_repair.py:847-905 | the in-place certification, with its locked-row loop, is its specification |
| RepairDatabase.Database.TakePending | src/market_data_center/quantity_unit_repair.py:690-698 | the batching loop takes the specified number of actions |
| RepairDatabase.Database.RunBatch | src/market_data_center/quantity_unit_repair.py:668-721 | one transaction is one specified batch |
| RepairDatabase.Database.ApplyPlan | src/market_data_center/quantity_unit_repair.py:636-724 | killed after any number of batches, it leaves a later progress point, and otherwise finishes |
| RepairDatabase.Database.Rollback | src/market_data_center/quantity_unit_repair.py:951-1052 | each applied record of the run is rolled back once and none is left |
| HistoryArchive.RemovesOnlyArchivedRows | scripts/retire_history_before.py:336-389 | whatever happens between checks and delete, a committed batch removes only rows equal to their archived text, in scope and unreferenced |
| HistoryArchive.ChangedRowsAbort | scripts/retire_history_before.py:363-380 | a changed, moved or referenced archived row aborts its batch |
| HistoryArchive.AbortNamesWhatWasFound | scripts/retire_history_before.py:346-380 | a batch is refused before its delete exactly for a repeated key, a row in scope with another text, a row out of scope, or a referenced key while rows in scope remain, named in this order |
| HistoryArchive.ApplyRemovesWholeBatches | scripts/retire_history_before.py:346-407 | an application removes exactly a number of whole batches, a stopped one keeps the earlier ones and changes nothing in the one that failed |
| HistoryArchive.CompletedApplyIsExact | scripts/retire_history_before.py:346-407 | a completed application leaves exactly the unarchived rows, and deleted plus already absent is the archived count |
| HistoryArchive.ApplyAmidWrites | scripts/retire_history_before.py:346-407 | whatever other sessions write between and inside its transactions, an application takes only archived, unreferenced rows in scope, counts exactly those, and accounts for every line of its whole batches |
| HistoryArchive.UndisturbedCounts | scripts/retire_history_before.py:346-407 | the undisturbed application is the case in which nobody else writes |
| HistoryArchive.CompletesIffUntouched | scripts/retire_history_before.py:346-407 | an undisturbed application completes exactly when every present archived row is as archived, in scope and safe to delete |
| HistoryArchive.RerunEndsAlike | scripts/retire_history_before.py:336-407 | a killed run and a rerun end like one run and delete the same rows between them |
| HistoryArchive.RestoreBatchAdds | scripts/retire_history_before.py:427-443 | a restore transaction adds the missing lines and fails exactly when an archived key holds another text |
| HistoryArchive.ApplyThenRestore | scripts/retire_history_before.py:415-443 | restore after apply gives the original table if and only if no archived row was already absent |
| HistoryArchive.RestoreRerunEndsAlike | scripts/retire_history_before.py:415-443 | a restore killed after any number of batches and run again ends like one restore |
| HistoryArchive.RestoreResurrects | scripts/retire_history_before.py:427-443 | a row deleted in between comes back |
| ArchiveRun.ChunksAreTheFile | scripts/retire_history_before.py:256-264 | the hashed chunks are the file, in order and within the batch size |
| ArchiveRun.VerifyArchive | scripts/retire_history_before.py:251-268 | verification accepts exactly the planned count and hash and yields one hash per chunk |
| ArchiveRun.Table.CheckRows | scripts/retire_history_before.py:346-380 | the selection loop and the counts decide exactly the specified aborts |
| ArchiveRun.Table.RemoveBatch | scripts/retire_history_before.py:357-391 | one transaction is its specification and an abort changes nothing |
| ArchiveRun.Table.Apply | scripts/retire_history_before.py:275-282 | batches committed are verified chunks in order, success means the file read is the verified one, and every failure keeps exactly the earlier batches |
| CorporateActions.Position | src/market_data_center/calculators.py:411-426 | an ex-date maps to the first bar on or after it |
| CorporateActions.DeferralConserves | src/market_data_center/calculators.py:407-429 | over all bars the events add up to every in-range action, once each |
| CorporateActions.GroupByExDate | src/market_data_center/calculators.py:382-405 | both loops accumulate exactly the in-range actions of each ex-date |
| CorporateActions.NextBar | src/market_data_center/calculators.py:418-421 | the search finds the bar an ex-date without one is deferred to, and fails only after the last bar |
| CorporateActions.AlignEvents | src/market_data_center/calculators.py:407-429 | every event bar carries everything landing on it; with deferral it cannot fail, so a subsequent bar is never missing |
| HolderReturns.BaseKeepsWealth | src/market_data_center/calculators.py:382-455 | at the base of a day one share of the previous close is worth, field by field over the actions taking effect, the shares it became and the cash it paid less what the new shares cost |
| HolderReturns.AdjustsIffTakesEffect | src/market_data_center/calculators.py:407-455 | a bar adjusts the series exactly when some action takes effect on it, except the first bar without a previous close where ex-dates may be deferred |
| AdjustedSeries.Theoretical | src/market_data_center/calculators.py:448-450 | the ex-right price leaves a holder's wealth unchanged |
| AdjustedSeries.EventFactors | src/market_data_center/calculators.py:431-455 | factors exist exactly when every adjusting event has a positive previous close and price, and each is their ratio |
| AdjustedSeries.ForwardIsConstantMultiple | src/market_data_center/calculators.py:143-155 | the forward factors are one constant times the backward factors over all bars |
| AdjustedSeries.AdjustBars | src/market_data_center/calculators.py:140-181 | the two passes and the output loop give the specified rows, every price included |
| AdjustedSeries.CalculateAdjusted | src/market_data_center/calculators.py:121-181 | the whole calculation, with its failures |
| HolderReturns.SeriesAreAnchored | src/market_data_center/calculators.py:143-155 | the forward series ends at the unadjusted prices and the backward series starts from them |
| HolderReturns.RowsKeepShape | src/market_data_center/calculators.py:167-181 | open, high and low keep their proportion to the close, which stands at the factor of the row, and a missing price stays missing |
| HolderReturns.RowsComeFromRange | src/market_data_center/calculators.py:157-181 | nothing outside the requested range is published |
| HolderReturns.RangeIsPublished | src/market_data_center/calculators.py:157-181 | every bar of the range is published in both series, forward first |
| HolderReturns.RowsCountTheRange | src/market_data_center/calculators.py:157-181 | and nothing else: there are twice as many rows as bars in the range |
| AdjustedSeries.ReturnIsCloseOverBase | src/market_data_center/calculators.py:184-207 | in either series a day's return exists exactly for priced bars and is close over the day's base |
| HolderReturns.ReturnIsTheHolders | src/market_data_center/calculators.py:184-207 | a published return, in either series, is what the holder of the day earns on the previous close and the money put in, in terms of the actions themselves |
| AdjustedSeries.BaseIsTheoretical | src/market_data_center/calculators.py:431-455 | the base is the theoretical ex-right price on effective event dates and the previous close otherwise |
| AdjustedSeries.ReturnIgnoresOtherActions | src/market_data_center/calculators.py:121-207 | two lists of corporate actions that land alike on a day give it the same return, whatever else they hold |
| AdjustedSeries.ReturnsTelescope | src/market_data_center/calculators.py:184-207 | when previous closes are prior closes, compounded returns are the ratio of adjusted closes |
| EffectiveRecords.LatestIsNewest | src/market_data_center/calculators.py:217-228 | the record in force has the greatest effective date not after the day, the last of several |
| EffectiveRecords.Advance | src/market_data_center/calculators.py:222-228 | the advancing pointer stands at the record in force |
| EffectiveRecords.CalculateMarketCaps | src/market_data_center/calculators.py:210-245 | every row values a priced bar at the record in force that day |
| EffectiveRecords.CapRowsValueBars | src/market_data_center/calculators.py:210-245 | every row is of a priced bar in the range and is its close times the total shares, and times the listed or else the circulating ones, of the newest effective record |
| EffectiveRecords.KnownBarsAreValued | src/market_data_center/calculators.py:210-245 | every priced bar of the range on which some record is effective has such a row |
| EffectiveRecords.Partition | src/market_data_center/calculators.py:299-301 | advancing, declining and unchanged members partition the priced ones |
| EffectiveRecords.Summarize | src/market_data_center/calculators.py:278-327 | a row's counts, totals and mean are those of the snapshot's members that day, and a total is given exactly when its members are covered |
| EffectiveRecords.CalculateClassification | src/market_data_center/calculators.py:264-328 | every day with a snapshot in force gets one row describing it |
| EffectiveRecords.CalculateClassifications | src/market_data_center/calculators.py:264-328 | the same for every classification in turn |
| SeriesWriter.InvariantHolds | src/market_data_center/call_auction_market_series_writer.py:119-176 | in every schedule submitted rounds are the logged, the one in hand and the queued, in order |
| SeriesWriter.SamplingNeverBlocks | src/market_data_center/call_auction_market_series_writer.py:133-136 | whenever one of the session's rounds is due its put is possible |
| SeriesWriter.QueueIsBounded | src/market_data_center/call_auction_market_series_writer.py:119-136 | in every schedule the queue holds at most the rounds of a session |
| SeriesWriter.NeverDeadlocks | src/market_data_center/call_auction_market_series_writer.py:138-151 | until close_and_wait has returned some thread can take a step |
| SeriesWriter.SchedulesAreBounded | src/market_data_center/call_auction_market_series_writer.py:138-151 | a schedule is bounded by its submissions, however many rounds are submitted |
| SeriesWriter.NothingIsLost | src/market_data_center/call_auction_market_series_writer.py:153-176 | when close_and_wait returns, every submitted round has been persisted or has failed |
| SeriesWriter.OutcomePartitionsSubmissions | src/market_data_center/call_auction_market_series_writer.py:147-151 | persisted and failed sequences split the submissions, each in submission order, and an error is reported exactly when one failed |
| SeriesWriter.FirstErrorIsFirst | src/market_data_center/call_auction_market_series_writer.py:160-176 | the error reported is that of the first call that raised one |
| SeriesWriter.FatalNeverReturns | src/market_data_center/call_auction_market_series_writer.py:160-176 | after an uncaught error in the consumer, close_and_wait never returns |
| SeriesWriter.DeadConsumerIsReachable | src/market_data_center/call_auction_market_series_writer.py:160-176 | a schedule that ends with such an error |
| SeriesWriter.ReturnsIffNoFatal | src/market_data_center/call_auction_market_series_writer.py:138-176 | a schedule that cannot go on has returned if and only if no logged call was fatal |
| SeriesWriter.Writer.Submit | src/market_data_center/call_auction_market_series_writer.py:133-136 | refused exactly when closed, otherwise the put of a queue with room |
| SeriesWriter.Writer.FinishItem | src/market_data_center/call_auction_market_series_writer.py:153-176 | the body of the consumer loop is the modelled step |
| SeriesWriter.Writer.CloseAndWait | src/market_data_center/call_auction_market_series_writer.py:138-151 | it fails when already closed and otherwise returns the split of all submissions |
| SeriesCollection.WindowsTile | src/market_data_center/domain/call_auction_market_series.py:44-63 | in both layouts the sampling windows are non-empty and tile the session |
| SeriesCollection.CollectRound | src/market_data_center/call_auction_market_series_service.py:231-289 | for every clock and every endpoint result one valid captured round, ended as its attempts say; an endpoint is asked only before the deadline and, after the first, only while the budget and the last elapsed time fit, and one is left out only when they do not |
| SeriesCollection.SampleSlot | src/market_data_center/call_auction_market_series_service.py:172-206 | a slot yields a valid round whose endpoints were asked inside it, failed without sampling when its deadline has passed |
| SeriesCollection.Collect | src/market_data_center/call_auction_market_series_service.py:171-211 | one valid round per slot, taken inside it, reaches the writer in order, and after closing each has been persisted or has failed |

## Left out

- Decimal precision contexts, quantization of stored amounts and time zones: arithmetic is exact and dates are ordinals.
- The turnover rule's own evaluation: its verdict is an input of a close, because only whether it triggers matters to the monitor.
- Official announcement states, status rows, coverage counts, turnover-gap bookkeeping and message texts of the regulation engine.
- The dominance choice, the pause before a later reset and the event-count warnings of the next-session warnings; only their deviation prices are modelled.
- `project_monitor` builds the current row from quotes before the projection; the projection itself is modelled.
- Which incomplete reason a rule result repeats: a close keeps the whole set.
- MonitorDay.CloseSymbol: turnover verdicts are an input of the close; statuses and turnover gaps are not carried.
- MonitorDay.CalculateMonitorDay: asks that checkpoints fit the session as the assumptions say; the program does not check it.
- MonitorThreshold.FindThreshold: price limits are given as bounds in ticks, the limit-ratio tables are not modelled.
- MonitorThreshold.PublishThreshold: the same limits, and a broken checkpoint names one reason where the program names the first kept.
- Lookahead.LookaheadCommutes: asks for a complete close today and one ordinary rule per direction of a count rule; `LookaheadCounts` has the other cases.
- Lookahead.ProjectClose: the same limits; the current row is given, where the program builds it from a quote.
- ThresholdExactness.CountTriggersIffReached: asks for one ordinary rule per direction, because with several the claim is false; `CountPrices` has the general statements.
- MonitorCounts.CountRuleFiresExactly: likewise; `CountPrices.CountRuleFiresOnRuns` is the statement for any number of ordinary rules.
- CountPrices.CountPriceIsExactIff: is about one close; `CountPrices.CountPriceIsExactForEveryClose` is the condition on the price itself.
- NextSessionResets.ResolveReset: inputs of the first algorithm version keep their boundaries unresolved; that branch is not modelled, and publication times are dates.
- ScenarioPrices.SolverHistoryIsExact: is about the sliced history; `OneSessionPrices.PricesAgreeIff` is the condition on the price.
- ScenarioPrices.ScenarioPriceIsThreshold: is for stocks with a tick of 0.01, the only one the threshold rounds to, and for fully priced histories; `OneSessionPrices.PricesAgreeIff` derives those from a complete evaluation.
- ScenarioPrices.SolveScenarios: a warning keeps the scenario, raw and rounded price, reachability and window start; texts and percentages are not carried.
- AdjustedSeries.EventFactors: visits the events in bar order, so which of several failing dates an error names is not modelled.
- AdjustedSeries.CalculateAdjusted: the bars come sorted; the refusals of mixed symbols and repeated dates are not modelled.
- CorporateActions.GroupByExDate: distributions and rights issues come as one list, because the two loops write different fields.
- EffectiveRecords.CalculateClassification: a row carries no identity fields; grouping and sorting by identity come before it.
- EffectiveRecords.CalculateClassifications: the groups are given in the program's order of identities.
- Moving averages and the digest of calculation inputs.
- Raw manifests beyond the size bound, parquet objects, directory syncs, symbolic links, the page cursor, budgets and temporary files orphaned by a crash.
- RawLifecycle.RawObject.PublishGzip: its checks of file identity before and after each pass are not modelled, because nothing but the worker writes an object's files.
- RawLifecycle.RawObject.RemoveVerifiedPlaintext: likewise, before the unlink.
- RawLifecycle.RawObject.Compress: interruptions by disk space and by the time budget are not modelled; a crash may stop it anywhere.
- RawLifecycle.RawObject.VerifyAndDeclare: file identities and the proof that objects are offline are not modelled.
- RawLifecycle.RawObject.RemoveVerified: the identity comparison before each unlink is reduced to presence, for the same reason.
- RawStreams.RawStore.WriteJsonl: an exception while rows are being produced is not modelled.
- The lineage, provider, schema and request checks of `evaluate_fact` other than the single matching Raw object and the legacy mapping; each only quarantines.
- The run's own status column, statement timeouts and locks of the repair; a transaction is atomic.
- QuantityRepair.OtherPlansUntouched: is about one record; `RepairHistory.RollbackAllSparesOtherPlans` is the loop.
- QuantityRepair.RollbackComparesAndSets: is about one record; `RepairHistory.RollbackAllComparesAndSets` is the loop.
- RepairCertification.AlreadyCorrectMeansBacked: the further conditions that quarantine a fact are not modelled, as above.
- RepairDatabase.Database.ApplyPlan: the run's status column, and the refusal to apply a plan once it was rolled back, are not modelled.
- HistoryArchive.AbortNamesWhatWasFound: the program compares whole lines for repetition; an archive is of rows with a primary key, so repeated keys are repeated lines.
- HistoryArchive.RestoreBatchAdds: unique constraints other than the primary key and foreign keys of restored rows are not modelled.
- ArchiveRun.VerifyArchive: the hash of the compressed file and the check for a truncated last line are not modelled.
- The archive's paths, receipts and database identity.
- SeriesWriter.Writer.Submit: a put on a full queue waits; the method covers a queue with room, the schedules all puts.
- SeriesWriter.Writer.CloseAndWait: runs the consumer's remaining turns itself and excludes fatal errors; the schedules have every interleaving and fatal errors.
- SeriesCollection.CollectRound: what an attempt fetches and validates is an input; clock readings may be any later times.
- SeriesCollection.Collect: the consumer takes its turns between slots; session records are not persisted.
- Command lines, settings, providers, HTTP contracts, analytics, per-dataset ingestion and audit rendering.
