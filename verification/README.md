# Verified replay, coverage and time-base checks

This project models the evidence machinery of the trading-assist repository: the scripts that
decide whether a replay, a data set or a recorded leg can be trusted. Each script's algorithm is
written in Dafny in the script's own form (loops, dictionaries and objects as methods and classes;
expressions as functions) and what it is for is proved about it, for every input.

- **Signal event log** (`SignalModel`, `SignalLedger`, `SignalLog`, `SignalEdges`, `SignalTheorems`,
  `SignalReplay`, `SignalInvariance`, `SignalLaws`). The replay with its in-place state and its
  ledger object is proved equal to a fold over a timeline of scans and fills that knows no ledger:
  the ledger never raises, suppresses or reorders anything. The fold is proved equal to an edge
  specification that has no state at all. On top: exactly which runs are accepted, the per-signal
  grammar, time order, distinctness of events, permanence of staleness, prefix invariance, and the
  verdict of the invariance check. `SignalLaws` says what the events are in literal texts and
  seconds.
- **Coverage gate** (`Intervals`, `CoverageGate`). Interval operations by the points they cover,
  uniqueness of canonical lists, De Morgan, conservation of length, and the gate verdict as an
  if-and-only-if over the measured sources.
- **Cross-leg arbitration** (`Candles`, `ConflictMerge`, `TimeBase`). OHLC bucketing and its
  composition, the shift scan, the census, admission as an if-and-only-if, completeness of fracture
  detection, exactness of conflict detection, and where admitted legs can conflict.
- **Clocks, gaps and ticks** (`ServerClock`, `GapRuns`, `MinuteRuns`, `Ticks`), **the H1 fact memo**
  (`LruMemo`), **the digest input** (`DigestFraming`, over `Decimal`) and **the branch verdict**
  (`BranchVerdict`).

Modelling choices. Times are whole seconds (minute labels: whole minutes, tick stamps: whole
microseconds), prices are exact reals and are rounded to five decimals where the code rounds them,
`exact_rate` is an exact quotient. A blank or non-finite tick price is an absent one. A signal is
identified by its full semantic record, which stands for the JSON key and for the truncated hash of
it; an event identifier is the tuple that is hashed, and the bytes handed to SHA-256 are modelled,
not SHA-256. New York's offset is any function that takes only the EST and EDT values and changes
only at Sunday 02:00 local. File contents, the list of tracked paths, the UTF-8 decoder, parsed
rows, loaded candles, rule hits, gate results and the market-status predicate are parameters.

Where the code and its own comments disagree, the code is modelled:

- A conflicting timestamp is documented as dropped from the merge entirely. It is dropped up to the
  second candle of that instant; a third is inserted again (`ConflictReinserted`).
  `DroppedExactly` says when nothing is left.
- The census comment says smallest |shift| first; the loop tries -3 first. `SmallestShiftExactly`
  says for which buckets the comment holds, `FracturedExactly` what that does to the verdict.
- Admission is documented as exact agreement (rate 1.0); the threshold is 0.999999.
  `ThresholdIsExactness` says both mean the same exactly below one million shared buckets.
- The duplicate branch of the ledger's loader returns silently for an identical entry; an identical
  entry would need the number of an earlier one, which the preceding check refuses, so the branch
  cannot be taken (`SignalLedger.SignalEventLedger.Load`).
- Issuance tests only the time to live, expiry also the UTC day, so a signal issued across midnight
  is expired on the next scan. Kept as it is.

## Model

| member | source | states |
|---|---|---|
| SignalLedger.SignalEventLedger.Append | research_external/oracles/crypto_signal_ledger.py:71-92 | idempotent on a known identifier, refuses conflicting, back-dated and inactive-fill events without changing anything, drops a withdrawal of a filled signal, otherwise extends the list by exactly one numbered entry |
| SignalLedger.SignalEventLedger.Load | research_external/oracles/crypto_signal_ledger.py:33-69 | a stored entry loads exactly when it has the next number, does not run back in time, carries a new identifier and follows the fill and withdrawal rules |
| SignalLedger.Replay | research_external/oracles/crypto_signal_ledger.py:20-26 | after a restart a stored list is accepted exactly when it is lawful, and then the ledger holds the same entries in the same order |
| SignalLedger.LawfulMeaning | research_external/oracles/crypto_signal_ledger.py:33-69 | lawful lists are numbered from zero, in time order, with pairwise distinct identifiers |
| SignalReplay.SignalEvents | scripts/ccfd_sweep_retest_replay.py:378-469 | the in-place replay with its ledger returns the specified log, or the specified error, on every stream and fill list; every returned log can be reloaded |
| SignalReplay.PlayScans | scripts/ccfd_sweep_retest_replay.py:421-469 | the nested loops play exactly the timeline: fills up to a scan's instant before it, the rest after the last scan |
| SignalReplay.PlayFills | scripts/ccfd_sweep_retest_replay.py:422-433 | the fill cursor applies exactly the due fills, or reports the first one without an active signal |
| SignalReplay.ApplyScan | scripts/ccfd_sweep_retest_replay.py:435-455 | one scan expires, withdraws and issues in place as specified, handing every event to the ledger |
| SignalReplay.Record | scripts/ccfd_sweep_retest_replay.py:412-419 | every append of a replay is accepted as a new entry: never refused, never suppressed as a duplicate |
| SignalReplay.LedgerPhases | scripts/ccfd_sweep_retest_replay.py:412-455 | the ledger's own phase table always agrees with the life of every signal along the log |
| SignalReplay.NormalizeStream | scripts/ccfd_sweep_retest_replay.py:395-409 | the dictionary loop drops retried scans and raises exactly as specified |
| SignalLog.NormalizeExact | scripts/ccfd_sweep_retest_replay.py:398-408 | a stream is accepted exactly when time never runs back and scans of one instant agree |
| SignalLog.NormalizeKeeps | scripts/ccfd_sweep_retest_replay.py:398-408 | what remains is strictly ordered, holds exactly the given scans and ends with the same one |
| SignalLog.RetriedScanIsIdempotent | scripts/ccfd_sweep_retest_replay.py:402-405 | repeating the last scan changes no run |
| SignalEdges.StateIsHistory | scripts/ccfd_sweep_retest_replay.py:421-455 | after every accepted timeline the active pointer, the last key, the known and the filled signals are those read off the timeline; at most one signal is ACTIVE and it is the pointer, and the pointer is the last key |
| SignalEdges.EdgeSpecification | scripts/ccfd_sweep_retest_replay.py:435-455 | a scan appends exactly: EXPIRE or WITHDRAWN of the unfilled followed signal by lapse or change of key; EMIT or REISSUE of k exactly when its key is k, the scan before had another key and k is unfilled, EMIT the first time |
| SignalEdges.LogIsExactlyTheExpectedEvents | scripts/ccfd_sweep_retest_replay.py:421-469 | an event is in the log exactly when some scan must produce it or it records a fill |
| SignalEdges.AcceptedExactly | scripts/ccfd_sweep_retest_replay.py:427-428 | a timeline is accepted exactly when every fill names the signal followed at that point, unfilled so far |
| SignalEdges.RunAcceptedExactly | scripts/ccfd_sweep_retest_replay.py:392-428 | a run raises nothing exactly when fills are ordered, the stream is consistent and every fill is legal |
| SignalEdges.FollowedIsLastKey | scripts/ccfd_sweep_retest_replay.py:443-455 | a followed signal is the last scan's key, so at most one is followed |
| SignalTheorems.EveryLogIsGrammatical | scripts/ccfd_sweep_retest_replay.py:427-455 | for every run and signal the phase table is the grammar's state after the log, never broken |
| SignalTheorems.FirstEventIsEmit | scripts/ccfd_sweep_retest_replay.py:452-452 | the first event of every signal is its EMIT |
| SignalTheorems.EmitIsFirst | scripts/ccfd_sweep_retest_replay.py:452-452 | a signal with an earlier event is never emitted again |
| SignalTheorems.ConsecutiveEvents | scripts/ccfd_sweep_retest_replay.py:427-455 | of two consecutive events of a signal the second closes a FRESH issuance, or reissues a withdrawn, expired or late one |
| SignalTheorems.FillIsFinal | scripts/ccfd_sweep_retest_replay.py:381-383 | nothing ever follows a FILL of the same signal |
| SignalTheorems.LogOrderedAndDistinct | scripts/ccfd_sweep_retest_replay.py:412-455 | every log is in time order and no two events share type, time and signal |
| SignalTheorems.ActiveIsNeverStale | scripts/ccfd_sweep_retest_replay.py:435-454 | after every scan the active signal satisfies now <= retest + SIGNAL_TTL |
| SignalTheorems.StalenessIsPermanent | scripts/ccfd_sweep_retest_replay.py:437-453 | once declared stale or issued late, a signal can only produce late reissues: never FRESH, WITHDRAWN or FILL |
| SignalTheorems.PrefixInvariance | scripts/ccfd_sweep_retest_replay.py:487-490 | replaying the first k scans with the fills up to that instant is accepted and gives exactly the full log's events at or before it |
| SignalTheorems.CutTimeline | scripts/ccfd_sweep_retest_replay.py:421-422 | cutting scans and fills at a scan's instant cuts the timeline there |
| SignalInvariance.DiffEvents | scripts/ccfd_sweep_retest_replay.py:472-481 | one mismatch per differing position, in order; ADDED, REMOVED or CHANGED exactly as the entry is missing on either side or differs, with the type and time of the expected entry where there is one; none exactly when the logs are equal |
| SignalInvariance.Cuts | scripts/ccfd_sweep_retest_replay.py:493-500 | the cuts are exactly the day ends and, around the last scan at each event's instant, the cut just before it, at it and one scan after it, kept inside the stream; no lookup of an event time fails |
| SignalInvariance.EventLogInvariance | scripts/ccfd_sweep_retest_replay.py:486-518 | on every accepted stream the PREFIX pass reports nothing, so PASS holds exactly when the scans that saw later bars give the same log |
| SignalInvariance.FillFreePrefix | scripts/ccfd_sweep_retest_replay.py:502-505 | the filtered full log equals the rebuilt prefix log, sequence numbers included |
| SignalLaws.FollowedAfterScan | scripts/ccfd_sweep_retest_replay.py:435-455 | after a scan a signal is followed exactly when it was followed, the scan repeats it and now is within 1200 seconds of the retest and on its UTC day; or the scan newly concludes it, it is unfilled and now is within 1200 seconds of the retest |
| SignalLaws.HeldSignalIsValid | scripts/ccfd_sweep_retest_replay.py:437-437 | a signal followed before and after a scan satisfies now <= retest + 1200 and now / 86400 == retest / 86400 |
| SignalLaws.EveryEventIsPlain | scripts/ccfd_sweep_retest_replay.py:412-455 | every event carries its signal's retest and direction and a signal with result ENTRY_VALID; its reason, freshness, window and scan or fill are those its kind demands, in literal texts and seconds |
| SignalLaws.SignalAcrossMidnight | scripts/ccfd_sweep_retest_replay.py:435-455 | a signal emitted at 23:56:40 and repeated at 00:01:40 is expired as UTC_DAY_ROTATION, and a later fill of it is refused |
| SignalLaws.TimelineHoldsAll | scripts/ccfd_sweep_retest_replay.py:421-469 | every scan and every fill is played exactly once, each list in its own order |
| SignalLaws.FillsBeforeScans | scripts/ccfd_sweep_retest_replay.py:422-422 | a fill is played before a scan exactly when it is not later than it |
| SignalLaws.FillsOrderedExactly | scripts/ccfd_sweep_retest_replay.py:392-393 | fills pass exactly when no fill is earlier than one given before it |
| SignalLaws.StreamErrorExactly | scripts/ccfd_sweep_retest_replay.py:398-405 | a stream fails at its first bad scan: out of order when earlier than the one before, conflicting when as early with another conclusion |
| SignalLaws.ErrorPrecedence | scripts/ccfd_sweep_retest_replay.py:392-428 | fills out of order are reported first, then a bad stream, then a fill without an active signal |
| SignalLaws.IdentifierFields | research_external/oracles/crypto_signal_ledger.py:28-31 | two events share an identifier exactly when they share type, time, signal and reason |
| SignalLaws.LedgerActiveExactly | research_external/oracles/crypto_signal_ledger.py:56-57 | the ledger holds a signal ACTIVE exactly when its last event is a FRESH issuance |
| SignalLaws.LedgerFilledExactly | research_external/oracles/crypto_signal_ledger.py:58-68 | the ledger holds a signal FILLED exactly when only EXPIREs of it followed its FILL |
| Intervals.Merge | scripts/audit_ssc_v1_0_1_one_year_data_coverage.py:132-142 | the result is canonical and covers exactly the input's points |
| Intervals.Complement | scripts/audit_ssc_v1_0_1_one_year_data_coverage.py:145-158 | canonical, inside the window, every uncovered instant reported on any input order, and no covered one on ascending input |
| Intervals.Intersect | scripts/audit_ssc_v1_0_1_one_year_data_coverage.py:161-171 | canonical, covering exactly the common points |
| Intervals.CanonicalUnique | scripts/audit_ssc_v1_0_1_one_year_data_coverage.py:132-142 | two canonical lists with the same points are equal |
| Intervals.MergeIgnoresOrder | scripts/audit_ssc_v1_0_1_one_year_data_coverage.py:134-134 | merging is independent of input order |
| Intervals.MergeOfCanonical | scripts/audit_ssc_v1_0_1_one_year_data_coverage.py:132-142 | merging a canonical list changes nothing |
| Intervals.DoubleComplement | scripts/audit_ssc_v1_0_1_one_year_data_coverage.py:145-158 | complementing any list twice in a window gives the canonical form of its part clipped to the window |
| Intervals.DoubleComplementInside | scripts/audit_ssc_v1_0_1_one_year_data_coverage.py:145-158 | a canonical list inside the window comes back unchanged |
| Intervals.DeMorgan | scripts/audit_ssc_v1_0_1_one_year_data_coverage.py:464-466 | the complement of the three-way intersection is the merge of the three complements |
| Intervals.LengthsAddUp | scripts/audit_ssc_v1_0_1_one_year_data_coverage.py:439-443 | covered length plus missing length is window length |
| CoverageGate.MeasureCoverage | scripts/audit_ssc_v1_0_1_one_year_data_coverage.py:428-443 | covered and missing lists are exactly the sourced and unsourced instants of the window |
| CoverageGate.WindowReport | scripts/audit_ssc_v1_0_1_one_year_data_coverage.py:460-511 | COMPLETE exactly when every instant lies in an admissible source of each timeframe; in a non-empty window exactly when the three-way intersection is the window; missing is the merge of the missing lists; lengths are conserved |
| CoverageGate.VerdictIsExact | scripts/audit_ssc_v1_0_1_one_year_data_coverage.py:463-468 | the same verdict facts about any report with these lists |
| CoverageGate.LastBarIsItsBucket | scripts/audit_ssc_v1_0_1_one_year_data_coverage.py:428-443 | the last bar of a source covers exactly its own hour, quarter of an hour or minute |
| Candles.Aggregate | scripts/audit_ssc_v1_0_1_one_year_cross_leg_consistency.py:141-155 | exactly the non-empty buckets, each with first open, highest high, lowest low and last close, ties in time resolved by listing order |
| Candles.AggregateUnique | scripts/audit_ssc_v1_0_1_one_year_cross_leg_consistency.py:141-155 | that specification determines the aggregation |
| Candles.BucketIsFloor | scripts/audit_ssc_v1_0_1_one_year_cross_leg_consistency.py:147-148 | for minutes dividing sixty the bucket start is rounding down to a multiple |
| Candles.BucketWithinHour | scripts/audit_ssc_v1_0_1_one_year_cross_leg_consistency.py:147-148 | for any width the bucket starts in the instant's hour, a multiple of the width into it and less than the width before the instant |
| Candles.RefinedAggregation | scripts/audit_ssc_v1_0_1_one_year_cross_leg_consistency.py:141-155 | aggregating by ordered buckets and then by buckets that contain them is aggregating by the latter at once |
| Candles.BucketingComposes | scripts/audit_ssc_v1_0_1_one_year_cross_leg_consistency.py:141-155 | for m dividing n dividing sixty, bucketing to m and then n is bucketing to n |
| Candles.AggregationKeepsValidity | scripts/audit_ssc_v1_0_1_one_year_cross_leg_consistency.py:150-154 | bars of valid candles are valid |
| Ticks.AdjudicateTicks | scripts/adjudicate_ssc_1y_m1_gap_source.py:255-332 | exact counters; non-monotonic zero exactly on time-ordered rows; bars of the rounded quotes in file order, and in time order the batch bars of each minute |
| Ticks.OnlineBarsAreBatchBars | scripts/adjudicate_ssc_1y_m1_gap_source.py:306-332 | the online update of ordered quotes is the batch aggregation |
| Ticks.CachedMinute | scripts/adjudicate_ssc_1y_m1_gap_source.py:299-305 | the cached minute is always the minute of the tick |
| Ticks.MinuteIsBucket | scripts/adjudicate_ssc_1y_m1_gap_source.py:299-304 | the minute key of a stamp is its one-minute bucket |
| Ticks.CountersCertifyOrder | scripts/adjudicate_ssc_1y_m1_gap_source.py:290-294 | the order counters are zero exactly on ordered stamps |
| Ticks.CountersExactly | scripts/adjudicate_ssc_1y_m1_gap_source.py:255-289 | each counter is the number of rows of its kind; a side counts when it is present and positive |
| Ticks.DescentsExactly | scripts/adjudicate_ssc_1y_m1_gap_source.py:293-294 | the non-monotonic counter is the number of stamps earlier than their predecessor |
| Ticks.RepeatsExactly | scripts/adjudicate_ssc_1y_m1_gap_source.py:291-292 | the duplicate counter is the number of stamps equal to their predecessor |
| Ticks.MidIsBetween | scripts/adjudicate_ssc_1y_m1_gap_source.py:325-325 | a middle price is as far from the bid as from the ask, both present and positive |
| Ticks.Round5IsNearest | scripts/adjudicate_ssc_1y_m1_gap_source.py:307-307 | the stored price is a nearest five-decimal price, the even one of two |
| Ticks.RoundingCommutes | scripts/adjudicate_ssc_1y_m1_gap_source.py:306-332 | the bar of rounded candles is the rounded bar |
| Ticks.OnlineBarsAreRoundedBars | scripts/adjudicate_ssc_1y_m1_gap_source.py:306-332 | on time-ordered rows the stored bars are the rounded bars of the exact quotes of each minute |
| ConflictMerge.MergeWithConflictDetection | scripts/audit_ssc_v1_0_1_one_year_cross_leg_consistency.py:238-248 | reports exactly the disputed instants; holds exactly the candles left standing; both lists ascend |
| ConflictMerge.FlattenExactly | scripts/audit_ssc_v1_0_1_one_year_cross_leg_consistency.py:241-242 | exactly the candles of the groups are visited |
| ConflictMerge.DisputedMeansDisagreement | scripts/audit_ssc_v1_0_1_one_year_cross_leg_consistency.py:245-247 | an instant is reported exactly when two candles disagree on it |
| ConflictMerge.ConflictsIgnoreOrder | scripts/audit_ssc_v1_0_1_one_year_cross_leg_consistency.py:229-248 | reports do not depend on the order of candles or groups |
| ConflictMerge.NoConflictIsUnion | scripts/audit_ssc_v1_0_1_one_year_cross_leg_consistency.py:243-248 | an undisputed instant is merged with the bar of every candle of it |
| ConflictMerge.StandsExactly | scripts/audit_ssc_v1_0_1_one_year_cross_leg_consistency.py:241-247 | something stands exactly when the offers are cancelling blocks followed by at least one more |
| ConflictMerge.SplitExists | scripts/audit_ssc_v1_0_1_one_year_cross_leg_consistency.py:241-247 | every list of offers splits that way |
| ConflictMerge.DroppedExactly | scripts/audit_ssc_v1_0_1_one_year_cross_leg_consistency.py:236-247 | an instant is absent from the merge exactly when its candles are cancelling blocks and nothing else |
| ConflictMerge.TwoGroupsFailClosed | scripts/audit_ssc_v1_0_1_one_year_cross_leg_consistency.py:236-237 | with at most two duplicate-free groups no conflicting timestamp survives |
| ConflictMerge.ThreeOffersSurvive | scripts/audit_ssc_v1_0_1_one_year_cross_leg_consistency.py:241-247 | with three candles a conflict survives exactly when the first two disagree |
| ConflictMerge.ConflictReinserted | scripts/audit_ssc_v1_0_1_one_year_cross_leg_consistency.py:236-247 | three one-candle groups whose conflicting timestamp is in the merge |
| TimeBase.ShiftScan | scripts/audit_ssc_v1_0_1_one_year_cross_leg_consistency.py:158-173 | one exact result per shift that shares a bucket, in ascending order |
| TimeBase.BestShift | scripts/audit_ssc_v1_0_1_one_year_cross_leg_consistency.py:276-277 | the first of the best results |
| TimeBase.BestAtZeroExactly | scripts/audit_ssc_v1_0_1_one_year_cross_leg_consistency.py:158-173 | zero wins the scan exactly when it meets a bucket and no shift from -3h to +3h misses a smaller share, those tried before it not even an equal one |
| TimeBase.ThresholdIsExactness | scripts/audit_ssc_v1_0_1_one_year_cross_leg_consistency.py:57-57 | the threshold means no mismatch exactly below one million shared buckets |
| TimeBase.FirstMatchIsLeast | scripts/audit_ssc_v1_0_1_one_year_cross_leg_consistency.py:192-196 | a bucket is attributed to its numerically least matching shift |
| TimeBase.SmallestShiftExactly | scripts/audit_ssc_v1_0_1_one_year_cross_leg_consistency.py:196-196 | a bucket is attributed to its match of smallest absolute shift exactly when no match at a negative shift has another match strictly nearer to zero |
| TimeBase.MostNegativeShiftWins | scripts/audit_ssc_v1_0_1_one_year_cross_leg_consistency.py:192-196 | a bucket matching at -3h and 0h is attributed to -3h |
| TimeBase.BimodalShiftCensus | scripts/audit_ssc_v1_0_1_one_year_cross_leg_consistency.py:184-197 | exactly the shifts that explain enough buckets, with their exact counts |
| TimeBase.AttributedOnce | scripts/audit_ssc_v1_0_1_one_year_cross_leg_consistency.py:190-196 | the counts of all shifts together never exceed the arbiter's buckets |
| TimeBase.SegmentsWithCoverage | scripts/audit_ssc_v1_0_1_one_year_cross_leg_consistency.py:200-210 | exactly the segments that share enough buckets, each with its exact count |
| TimeBase.SegmentsPartitionTheWindow | scripts/audit_ssc_v1_0_1_one_year_cross_leg_consistency.py:62-84 | the segments are pairwise disjoint and their shared counts add up to the window's |
| TimeBase.SeasonInstants | scripts/audit_ssc_v1_0_1_one_year_cross_leg_consistency.py:61-77 | the instants are those of the window and 01:00 UTC on the last Sundays of October 2025 and March 2026 |
| TimeBase.TwoSeasonsExactly | scripts/audit_ssc_v1_0_1_one_year_cross_leg_consistency.py:200-210 | two seasons are tested exactly when two of the three stretches between the clock changes share a hundred buckets each |
| TimeBase.OneSeasonIsNeverAdmitted | scripts/audit_ssc_v1_0_1_one_year_cross_leg_consistency.py:224-225 | a leg whose shared buckets lie in one stretch between the clock changes never has two tested seasons |
| TimeBase.AuditLeg | scripts/audit_ssc_v1_0_1_one_year_cross_leg_consistency.py:272-292 | no overlap, fracture, single season and admission, each exactly characterised |
| TimeBase.CensusSizeIsFracture | scripts/audit_ssc_v1_0_1_one_year_cross_leg_consistency.py:219-220 | two census entries exactly when two shifts each explain a hundred buckets |
| TimeBase.FractureIsDetected | scripts/audit_ssc_v1_0_1_one_year_cross_leg_consistency.py:184-220 | a leg that is the arbiter moved by two shifts on a hundred buckets each, with no coincidental match elsewhere, is always found fractured |
| TimeBase.FracturedExactly | scripts/audit_ssc_v1_0_1_one_year_cross_leg_consistency.py:184-220 | fractured exactly when two sets of a hundred buckets are moved by different shifts and none of those buckets matches at a more negative shift |
| TimeBase.EarlyCopyHidesFracture | scripts/audit_ssc_v1_0_1_one_year_cross_leg_consistency.py:192-196 | a leg that repeats every arbiter bucket three hours early is never found fractured |
| TimeBase.FractureCanBeMissed | scripts/audit_ssc_v1_0_1_one_year_cross_leg_consistency.py:184-220 | a concrete leg with a hundred buckets unmoved and a hundred an hour late that is not found fractured |
| TimeBase.AdmittedLegEqualsArbiter | scripts/audit_ssc_v1_0_1_one_year_cross_leg_consistency.py:221-226 | below a million shared buckets an admitted leg equals the arbiter wherever they share a bucket |
| TimeBase.TableExactly | scripts/audit_ssc_v1_0_1_one_year_cross_leg_consistency.py:270-270 | the lookup table holds the bar of the last candle of each instant |
| TimeBase.InsideConflictIsOneLegs | scripts/audit_ssc_v1_0_1_one_year_cross_leg_consistency.py:396-408 | below a million shared buckets a conflict among admitted legs at one of the arbiter's buckets is a leg that lists two different candles for that instant |
| TimeBase.AdmittedLegsConflictOnlyOutsideArbiter | scripts/audit_ssc_v1_0_1_one_year_cross_leg_consistency.py:396-408 | among admitted legs of unique timestamps every conflict is at a timestamp the arbiter has no bucket for |
| TimeBase.ArbitrateLegs | scripts/audit_ssc_v1_0_1_one_year_cross_leg_consistency.py:373-408 | the legs merged are exactly the admitted candidates, in source order; the merged series ascends and holds exactly the standing instants; the conflicts are exactly the disputed ones, and one inside the arbiter is a leg's own contradiction |
| LruMemo.Memo.Facts | scripts/lsmc_v112_60d_replay.py:158-171 | always the uncached result; a hit exactly when at most 32 distinct keys were requested since that key; hits plus misses is calls; never more than 32 entries |
| LruMemo.NewestIsRecent | scripts/lsmc_v112_60d_replay.py:161-171 | being among the n newest keys is exactly being requested at most n distinct keys ago |
| LruMemo.RequestStep | scripts/lsmc_v112_60d_replay.py:161-171 | a hit moves its key to the end, a miss appends it and evicts the oldest beyond capacity |
| DigestFraming.InputRecorder.Read | scripts/generate_live_status.py:43-52 | only tracked paths inside the repository are read; a path keeps the bytes of its first read, and what does not decode is an error after it was recorded |
| DigestFraming.InputRecorder.DigestInput | scripts/generate_live_status.py:54-59 | the hashed bytes are the frames of all recorded inputs in ascending order of path |
| DigestFraming.FrameBytes | scripts/generate_live_status.py:57-58 | a frame is the path, NUL, the ASCII decimal length, NUL, the data, byte for byte |
| DigestFraming.LessExactly | scripts/generate_live_status.py:56-56 | paths are listed in lexicographic order of their bytes |
| Decimal.NoLeadingZero | scripts/generate_live_status.py:58-58 | a printed number has no leading zero |
| Decimal.DigitsOfValue | scripts/generate_live_status.py:58-58 | a numeral without leading zeros is the one that is printed |
| DigestFraming.OneByteFile | scripts/generate_live_status.py:54-59 | the bytes hashed for one file `a` holding `x` |
| DigestFraming.DecodeInvertsEncode | scripts/generate_live_status.py:54-59 | decoding gives back the framed items for paths without NUL |
| DigestFraming.StreamDeterminesInputs | scripts/generate_live_status.py:67-71 | two recorded input maps with the same stream are equal |
| DigestFraming.ItemsUnique | scripts/generate_live_status.py:56-56 | the sorted listing, and so the stream, depends on the recorded inputs alone |
| DigestFraming.FirstReadsMeaning | scripts/generate_live_status.py:50-51 | recorded bytes are those of the first read of each path |
| DigestFraming.ReadOrderIsIrrelevant | scripts/generate_live_status.py:50-51 | while no file changes, order and number of reads do not matter |
| ServerClock.RoundTrip | scripts/capture_recorded_range_fx.py:49-60 | to server time and back is the identity, except u - 3600 in the repeated hour |
| ServerClock.RepeatedIsTheHourAfterFallBack | scripts/capture_recorded_range_fx.py:49-51 | the repeated instants are exactly those in the hour after a fall-back |
| ServerClock.RepeatedHourIsClosed | scripts/capture_recorded_range_fx.py:63-67 | the market is closed throughout the repeated hour |
| ServerClock.RoundTripWhenOpen | scripts/capture_recorded_range_fx.py:54-67 | the round trip is exact at every open-market instant |
| ServerClock.ServerTimeRoundTrip | scripts/capture_recorded_range_fx.py:54-60 | every occurring server time is preserved, and the earlier of two candidates is chosen |
| ServerClock.ClosedExactly | scripts/capture_recorded_range_fx.py:63-67 | the market is closed exactly in the 48 hours from Friday 17:00 New York of every week |
| ServerClock.ServerAhead | scripts/capture_recorded_range_fx.py:49-60 | the server is two hours ahead of UTC in winter and three in summer |
| GapRuns.FindGapRuns | scripts/capture_recorded_range_fx.py:70-83 | the runs list exactly the missing slots in order, are maximal and homogeneous, and missing plus present is the grid |
| GapRuns.MissingMeaning | scripts/capture_recorded_range_fx.py:73-75 | the missing slots are exactly the absent grid points of the window |
| GapRuns.PresentMeaning | scripts/capture_recorded_range_fx.py:72-76 | the present slots are exactly the recorded grid points of the window |
| GapRuns.ListedInOrder | scripts/capture_recorded_range_fx.py:73-75 | each slot is listed once, in order |
| GapRuns.GridSizeExactly | scripts/capture_recorded_range_fx.py:73-73 | the grid has as many slots as steps begin in the window |
| GapRuns.CountIsSpan | scripts/capture_recorded_range_fx.py:81-81 | a run's count is (to - from) / step + 1 |
| MinuteRuns.CompressMinutes | scripts/capture_recorded_m15.py:465-474 | the text of the greedy runs of the labels |
| MinuteRuns.CompressionIsLossless | scripts/capture_recorded_m15.py:465-474 | reading the text gives back the minutes |
| MinuteRuns.PrintedRun | scripts/capture_recorded_m15.py:471-473 | a run of several minutes prints its first label, its last label and the decimal number of minutes it expands to |
| MinuteRuns.PrintedDay | scripts/capture_recorded_m15.py:465-474 | the text of 00:00 to 00:04 and 23:59 |
| MinuteRuns.RunsAreMaximal | scripts/capture_recorded_m15.py:469-473 | no two neighbouring runs could be joined |
| MinuteRuns.GapCell | scripts/capture_recorded_ccfd_tfs.py:137-137 | the cell text, "none" for an empty list |
| MinuteRuns.SameCellSameGaps | scripts/capture_recorded_ccfd_tfs.py:137-139 | two cells are equal exactly when the gap lists are identical |
| MinuteRuns.DayAcceptedExactly | scripts/capture_recorded_ccfd_tfs.py:134-142 | a day's cell matches exactly when the same minutes are present |
| MinuteRuns.MinuteRoundTrip | scripts/capture_recorded_m15.py:467-472 | labels and minutes determine each other |
| BranchVerdict.CoverageMatrix | scripts/ccfd_sweep_retest_replay.py:306-320 | every rule with its scope, and every cell with its status (not applicable, exercised or not) and its count of scans |
| BranchVerdict.CoverageExactly | scripts/ccfd_sweep_retest_replay.py:313-318 | a cell is not applicable exactly on the other side of a one-sided rule, exercised exactly when its scans are positive, and its scans are the entry of its own window and, unless the rule is not bound to sides, of its own side |
| BranchVerdict.ProofMatrix | scripts/ccfd_sweep_retest_replay.py:328-343 | every cell with its proof status |
| BranchVerdict.Verdict | scripts/ccfd_sweep_retest_replay.py:346-356 | verified exactly when nothing blocks; what blocks is exactly the gates that did not pass, the mismatch flag and the uncounted cells of the side, in that order |
| BranchVerdict.EvaluateBranch | scripts/ccfd_sweep_retest_replay.py:306-356 | verified exactly when gates pass, nothing mismatches and every applicable rule is hit in both windows or synthetically proven, whatever the coverage-only report; the blocking list is read off the inputs |
| BranchVerdict.ProvenByHits | scripts/ccfd_sweep_retest_replay.py:313-356 | a side is proven exactly when every applicable, not synthetic rule has a positive entry of that side (or of none, when not bound to sides) in each window |
| BranchVerdict.OtherWindowDoesNotCount | scripts/ccfd_sweep_retest_replay.py:313-318 | with no hits of a rule in a window the side is not proven, whatever the other window holds |
| BranchVerdict.OtherSideDoesNotCount | scripts/ccfd_sweep_retest_replay.py:313-318 | with no hits of a rule on its side in a window the side is not proven, whatever the other side holds |
| BranchVerdict.MoreHitsKeepProof | scripts/ccfd_sweep_retest_replay.py:306-356 | adding rule hits never takes a proof away |

## Left out

- Reading and writing CSV, JSON, YAML and Parquet, MetaTrader 5 calls, git, subprocesses and printing: input and output only.
- The strategy engine, the guard, the ticket builders and the H1 facts themselves: scan conclusions, candles and the cached function are arbitrary inputs.
- SHA-256 and the truncation of signal identifiers: a collision of two truncated hashes is not modelled.
- JSON rendering of a scan conclusion: two conclusions are the same key exactly when they are equal records.
- Which byte strings are UTF-8 and the UTF-8 encoding of paths: the decoder is any partial function on bytes, and paths are byte strings.
- Binary floating point: prices, mid prices, rates and the rounding to five decimals are on exact reals.
- The report fields of the invariance check and of the coverage report that only count or format (events by type, reissue totals, weekdays touched, durations in days, warm-up bars), and the row-length and flag histograms of the tick loop.
- The season argument of the shift scan, which no caller passes, a missing, rejected or empty source file, and the span comparison after the merge of legs.
- Aggregation of M1 bars inside one M15 bar and the M15 row comparison of the recorded capture: the same bucketing on one bucket, and text equality.
- The rule table and the set of synthetically proven rules are parameters with distinct rule names, not the concrete lists; the rule events of one scan are not derived.
- TimeBase.FractureIsDetected: asks in addition that any further bar of the leg equals no arbiter bucket within three hours of it, because a match at a more negative shift takes the attribution; `TimeBase.FractureCanBeMissed` shows the claim is false without it and `TimeBase.FracturedExactly` gives the exact condition.
