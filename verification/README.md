# A verified model of the desk research loop

This Dafny project models the parts of the repository in which several components have to agree, and
proves what they promise together. Amounts are real numbers, timestamps are whole seconds, tables are
sequences of rows held by a `Database` object, and Python's exceptions are `Raised` results.

* **Shapley attribution** (`Shapley*.dfy`, `Attribution.dfy`, `RepeatedNames.dfy`). The exact functions accumulate
  factorial-weighted marginals over a cached table of coalitions, the sampled ones walk along shuffles. For any value
  function and any number of distinct desks the exact value is the average of the sampled credit over all orderings.
  Both are then efficient, and the signal-space values are bounded by, and without saturation equal to, the
  leave-one-out deltas of the Controller; for the sampled values that holds for all shuffles. The roll-ups over a
  window conserve the total.
* **The weight ledger** (`WeightTable.dfy`, `Persistence.dfy`, `Controllers.dfy`, `Promoting.dfy`, `Remediation.dfy`,
  `FeedReliability.dfy`, `ReviewHandler.dfy`, `RetirementCap.dfy`). An append-only table read by the latest
  (timestamp, id) per key. Cold start, promotion, retirement and reinstatement write it; the Controller reads it.
  Every writer modelled keeps stored weights non-negative, ids unique and one open incident per feed
  (`Persistence.Database.Valid`). The end-to-end results run from proposer through validator, writer and reader to the
  decision.
* **Feed latency and the scheduler** (`FeedLatency.dfy`, `Firings.dfy`, `ReleaseCalendar.dfy`). The streaming
  Page-Hinkley detector equals a batch definition over windows; the clock composes; drift and recovery
  checks are characterised exactly. A cron expression is a function that gives the next due time.
* **Tractability** (`Thinning.dfy`, `Tractability.dfy`, `AdditiveN.dfy`, `FamilyOrder.dfy`). Greedy thinning is an
  interval-scheduling optimum, which settles what the additive-N guard can ever observe.
* **Purged cross-validation** (`Cpcv.dfy`), the **degradation ladder** (`Degradation.dfy`) and the
  **forecast hash chain** (`ForecastChain.dfy`).

`Sums.dfy`, `Powers.dfy`, `Edges.dfy`, `Combinatorics.dfy`, `Dicts.dfy`, `Ordering.dfy` and `StableSort.dfy` hold
the shared mathematics, `Contracts.dfy` the records. `dafny verify dfyconfig.toml` checks everything.

Where a promise fails, the exact condition is proved instead:

* Exact Shapley values hand out the whole total, for all inputs with given desk names, if and only if no name repeats.
  That is shown at each of the three value functions (`PositionEfficientIffDistinct`,
  `UnsaturatedEfficientIffDistinct`, `GradingEfficientIffDistinct`, `NormalizedEfficientIffDistinct`; the last three
  up to the six rows above which the exact functions raise). A desk with two targets has two rows, so its name
  repeats; alone it keeps half of the total (`LoneDeskKeepsAnNth`). The sampled values always add up.
* With non-negative weights and a row for every desk of positive value, proposed weights sum to one if and only if
  each of those desks has exactly one row and no unrepresented row carries weight (`ProposalSumsToOneForCaller`;
  without those two hypotheses `ProposalSumsToOneIff`). A desk with two targets is proposed twice its share
  (`TwoTargetsSumToTwo`).
* The documented retirement cap holds after a review if and only if the slots retired in the week before and the
  slots due now are together within it (`CapKeptIff`); `CapCanBeExceeded` is a ledger on which they are not.
* An added family can lower a target's count if and only if it is inadmissible and takes a name that was
  admissible so far, with a release that no other admissible family covers (`LowersIff`; the quality filter is
  keyed by name). Among families with distinct names the guard never rejects (`DistinctNamesPass`).
* Every release of a cron calendar is fed to the drift detector at most once if and only if the passes, rounded
  down to the minute, are at least fourteen days apart (`FedOnceOnMinutesIff`).
* Another order of the families changes a count if and only if a name with admissible and inadmissible families has
  a release that no always admissible name covers (`OrderMattersIff`).
* A retired pair acts like a left-out desk if and only if no other row of the desk carries weight in the regime
  (`RetiredIsLeftOutIff`).
* A target zeroed by a halt comes back in some stale run if and only if the soft window is still open and the
  last valid target is not zero (`HaltedTargetCanReturnIff`, per run `HaltedTargetReturnsIff`).
* `_append_forecasts` succeeds if and only if the new ids are fresh and distinct; otherwise it raises after both
  files were written, and the ledger never verifies again (`AppendVerifiesIff`, `DuplicateIsPermanent`).

Where code and documentation differ, the model follows the code:

* The review's retirement cap is documented as deferring retirements
  (`research_loop/handlers.py:495-520`), but every row is written and the cap only labels the excess as skipped
  (`CapKeptIff`, `CapReachedIff`).
* The conservative reinstatement weight cannot be reached in a review later than every stored row: a feed
  retirement only zeroes a slot that had a positive weight, so a previous weight is found (`FeedReliabilityReview`).
* Recovery is documented for the next firing after an incident opened; any later firing that was met on
  time closes it. The two differ exactly when the next one was missed and a later one met (`RecoveryRulesDifferIff`).
* The latency detector is documented as seeing each firing; the fourteen-day look-back is fed again at
  every pass (`RunIsOneStream`, `TimesFed`).
* A halt inside the soft window is followed, at the next stale tick, by the old target (`InWindowClosedForm`).

## Model

| member | source | states |
|---|---|---|
| `Shapley.CacheValues` | attribution/shapley.py:186-196 | The cached table holds v for every subset of the desks |
| `Shapley.ExactShapley` | attribution/shapley.py:162-212 | Raises exactly above six desks; otherwise one entry per name in dict order, each the factorial-weighted sum over coalitions |
| `Shapley.FirstOccurrencesOrder` | attribution/shapley.py:181-212 | The names are in the order of their first occurrences |
| `Shapley.WalkSample` | attribution/shapley.py:339-355 | One shuffle adds to each desk exactly the marginal it earns on arrival |
| `Shapley.SampledShapley` | attribution/shapley.py:310-358 | Raises exactly when there are desks but no samples; otherwise each desk gets its mean credit over the shuffles |
| `Shapley.WeightedIsProduct` | attribution/shapley.py:198-209 | The weight used in the proofs is the source's quotient of factorials times the marginal |
| `ShapleyTheory.LayersAreSubsets` | attribution/shapley.py:200-210 | The loops over r and over combinations visit every coalition without the desk once |
| `ShapleyTheory.OrderingsAreSubsets` | attribution/shapley.py:200-210 | Summing marginals over all orderings weighs each coalition S of others by s!(n-s-1)! |
| `ShapleyAxioms.ExactIsOrderingAverage` | attribution/shapley.py:198-212 | For distinct desks and any n, the exact value is the average over all n! orderings of the credit the sampled loop gives |
| `ShapleyAxioms.SampledOverAllOrderingsIsExact` | attribution/shapley.py:340-358 | The sampled loop run once over every ordering, in any order, returns the exact values |
| `ShapleyAxioms.SampledEfficiency` | attribution/shapley.py:339-358 | For every sequence of shuffles the totals add up to v(all) - v(nobody) per sample, repeated names included |
| `ShapleyAxioms.ExactEfficiency` | attribution/shapley.py:198-212 | For distinct desks the exact values add up to v(all) - v(nobody) |
| `RepeatedNames.PositionEfficientIffDistinct` | attribution/shapley.py:162-212 | For the position values of one regime's rows, no slot twice: the exact values add up for all such rows with these desk names, books and parameters if and only if no name repeats |
| `RepeatedNames.UnsaturatedEfficientIffDistinct` | attribution/shapley.py:162-212 | The same for up to six rows (the exact function's cap) when no coalition is clipped: clipping is not what loses part of the total |
| `RepeatedNames.GradingEfficientIffDistinct` | attribution/shapley.py:215-264 | The same, up to six rows, for the squared-error values |
| `RepeatedNames.NormalizedEfficientIffDistinct` | attribution/shapley.py:267-307 | The same, up to six rows, for the normalized squared-error values |
| `RepeatedNames.ListedTwiceLoses` | attribution/shapley.py:198-212 | A desk that alone has a forecast and is listed twice among up to six rows is handed strictly less than the total |
| `RepeatedNames.ConstantShare` | attribution/shapley.py:198-212 | A desk whose arrival is always worth c earns c once per ordering the loops count, over n!, repeated names included |
| `RepeatedNames.LoneDeskKeepsAnNth` | attribution/shapley.py:181-212 | One desk on n targets is handed an n-th of the total, for every value function |
| `RepeatedNames.LoneDeskEfficientIff` | attribution/shapley.py:181-212 | So on two targets or more, as cold start writes them, the total is handed out exactly when it is zero |
| `ShapleyAxioms.ExactBounds` | attribution/shapley.py:198-212 | An exact value lies between the least and the greatest marginal of the desk |
| `ShapleyAxioms.ExactSymmetry` | attribution/shapley.py:198-212 | Interchangeable desks get the same exact value |
| `Attribution.CoalitionCombinedSignal` | attribution/shapley.py:50-70 | The coalition's signal is the sum of its members' used contributions |
| `Attribution.StartingValues` | attribution/shapley.py:310-436 | The constant each sampled function starts from is the value of the empty coalition |
| `Attribution.NormalizedSignalIsMean` | attribution/shapley.py:116-138 | The normalized signal times the number of active forecasts of the coalition is the sum of their estimates |
| `Attribution.GradingMarginal` | attribution/shapley.py:91-113 | A row with contribution c that joins a coalition of signal x changes the value by -c (2 (x - y) + c) |
| `Attribution.NormalizedValueIs` | attribution/shapley.py:141-159 | The value is minus the squared distance from the print: never positive, and zero exactly for the print itself |
| `Attribution.GrandCoalitionIsController` | attribution/shapley.py:50-88 | With every desk included the coalition's signal is the one the Controller computes |
| `Attribution.CounterfactualCombinedSignal` | attribution/lodo.py:39-63 | The leave-one-out loop computes the sum over the other desks' rows |
| `Attribution.CounterfactualIsCoalition` | attribution/lodo.py:39-81 | Leaving nobody out reproduces the Controller; leaving a desk out is the coalition of all the others |
| `Attribution.LodoSignalSpace` | attribution/lodo.py:84-153 | Raises exactly when parameters are missing or the stored position is not reproduced; each row is v(all) - v(all without the desk) |
| `Attribution.LodoGradingSpace` | attribution/lodo.py:156-223 | The same in squared-error space |
| `ShapleyAxioms.SampledBounds` | attribution/shapley.py:339-358 | For every non-empty sequence of shuffles the sampled value lies between the least and the greatest marginal of the desk |
| `Attribution.SignalShapleyBounds` | attribution/shapley.py:50-88 | With pos_limit >= 0 a desk's exact value lies between 0 and k * weight * estimate, and is 0 for a stale or absent desk |
| `Attribution.SampledSignalBounds` | attribution/shapley.py:310-358 | The same for the sampled value, for every non-empty sequence of shuffles |
| `Attribution.UnsaturatedShapleyIsLodo` | attribution/lodo.py:132-142 | When no coalition saturates the clip, the exact Shapley value, k * weight * estimate and the LODO delta coincide |
| `Attribution.UnsaturatedSampledIsLodo` | attribution/lodo.py:132-142 | Then the sampled value is the same number too, whatever shuffles were drawn |
| `ShapleyWindow.DecisionValues` | attribution/shapley.py:574-599 | The mode rule and the errors written out for each mode, each desk's value by name, and efficiency |
| `ShapleyWindow.SignalSpace` | attribution/shapley.py:526-622 | One row per desk with its mean value over the decisions it took part in; value times decisions sums to the window's positions |
| `ShapleyWindow.GradingSpace` | attribution/shapley.py:652-704 | The same over the decisions with a print; the total is the window's squared-error reduction |
| `ShapleyWindow.WindowRollupIs` | attribution/shapley.py:601-622 | A desk's total is the sum of its credits and its count the number of decisions that credit it |
| `ShapleyWindow.BookIs` | attribution/shapley.py:664 | A decision is evaluated on the book stored under its id, on an empty one if there is none |
| `ShapleyWindow.RowIsMean` | attribution/shapley.py:607-622 | A row's value times its number of decisions is the desk's total |
| `ShapleyWindow.ReductionIs` | attribution/shapley.py:116-159 | The value shared out on a graded decision is m (2 y - m) for the mean forecast m and the print y |
| `WeightTable.LatestIsNewest` | persistence/db.py:562-600 | The row picked for a slot is the greatest by (timestamp, id), whatever the insertion order |
| `WeightTable.NewestIsRead` | persistence/db.py:562-600 | With distinct ids exactly the row that no row of the slot exceeds by (timestamp, id) is read |
| `WeightTable.LatestWeightsOrdered` | persistence/db.py:582-589 | The rows of a regime are ordered by desk, then by target |
| `Ordering.StringLessIff` | persistence/db.py:582-589 | Strings are compared at the first place where they differ, a proper prefix coming first |
| `WeightTable.LatestWeightsSpec` | persistence/db.py:562-600 | The read returns the latest row of each slot of the regime, each once |
| `WeightTable.LatestAfterAppend` | persistence/db.py:562-600 | Newer rows, one per slot, are what those slots read next; every other slot reads as before |
| `WeightTable.RewriteIsRead` | persistence/db.py:562-600 | Rewriting all slots of a regime with newer rows makes the next read return exactly those rows, in order |
| `Persistence.LatestParamsIsNewest` | persistence/db.py:645-672 | The parameters read are the regime's newest |
| `Persistence.Database.InsertSignalWeight` | persistence/db.py:172-189 | Appends the row and keeps ids unique; a non-negative row keeps all stored weights non-negative |
| `Persistence.OpenIncidentSpec` | persistence/db.py:396-432 | The open incident of a feed, unique when the registry is valid |
| `Persistence.Database.OpenFeedIncident` | persistence/db.py:330-372 | Opening a feed that is already open returns the same id and writes nothing; at most one incident per feed is open |
| `Persistence.Database.CloseFeedIncident` | persistence/db.py:375-393 | Gives the addressed open incident the closing time and the resolution and changes nothing else; a closed incident never changes again |
| `Controllers.InputIdsSpec` | controller/decision.py:94-113 | The recorded forecast ids are those of the rows that contributed, and no others |
| `Controllers.Controller.Decide` | controller/decision.py:70-133 | Raises exactly without rows or parameters; otherwise the skipping weighted sum, the contributing ids, and with a non-negative limit the position: k * signal when that is within the limits, the limit above them and minus the limit below them |
| `Controllers.PositionIsLimited` | controller/decision.py:117 | For every signal the position lies within the limits, is the scaled signal inside them and the nearer limit outside them, on both sides |
| `Controllers.InputIdsInOrder` | controller/decision.py:94-113 | The ids are recorded row by row |
| `Controllers.ColdStartSlotAt` | controller/cold_start.py:67-92 | The j-th desk of the i-th regime gets row number i * desks + j, under its own desk and target |
| `Controllers.SeedSumsToOne` | controller/cold_start.py:64-75 | The seed weights of a regime add up to one |
| `Controllers.SeedColdStart` | controller/cold_start.py:34-92 | Raises exactly on empty input or a negative limit (then after the first regime's weights); otherwise appends weight 1/n per regime and desk and one parameter row per regime |
| `Promoting.Propose` | research_loop/promotion.py:63-122 | One candidate row per current row with its key, the share or kept weight, the timestamp and a fresh id |
| `Promoting.LastValueCounts` | research_loop/promotion.py:91-101 | A desk counts with its last Shapley row, a negative value as zero |
| `Promoting.UnlistedDesk` | research_loop/promotion.py:91-101 | A desk without a Shapley row is not counted |
| `Promoting.ProposalNonNegative` | research_loop/promotion.py:91-122 | Proposed weights are never negative |
| `Promoting.NoPositiveKeepsWeight` | research_loop/promotion.py:91-122 | If no desk has positive value the proposal reproduces the current weights |
| `Promoting.ProposalTotal` | research_loop/promotion.py:91-122 | With some positive value: every row of a represented desk gets the desk's whole share, the other rows are kept, and the sum is just that, whatever rows and desks there are |
| `Promoting.ProposalSumsToOneIff` | research_loop/promotion.py:91-122 | It sums to one if and only if the values counted once per row, plus the total times the kept weight, equal the total |
| `Promoting.ProposalSumsToOneForCaller` | research_loop/promotion.py:91-122 | With non-negative weights and a row for every desk of positive value: if and only if each such desk has exactly one row and no row of an unrepresented desk carries weight |
| `Promoting.ProposalSumsToOne` | research_loop/promotion.py:91-122 | With distinct desks, each represented one holding a row, the sum is one plus the kept weight |
| `Promoting.TwoTargetsSumToTwo` | research_loop/promotion.py:91-122 | A desk with two targets, as cold start writes it, is proposed weights that add up to two |
| `Promoting.ValidatorAgreesWithController` | research_loop/promotion.py:164-201 | The validator's sum over forecasts equals the Controller's sum over weight rows |
| `Promoting.WindowedMse` | research_loop/promotion.py:164-201 | The mean squared error over held-out decisions with a print, and their number |
| `Promoting.MseOfRows` | research_loop/promotion.py:164-201 | On rows read from the ledger the validator's error is the Controller's own error |
| `Promoting.Validate` | research_loop/promotion.py:204-242 | Passes exactly when something was graded, the current error is positive and (current - candidate) / current exceeds the margin; never when the margin is 1 or more |
| `Promoting.MarginMeaning` | research_loop/promotion.py:235 | The code's comparison with current * (1 - margin) says that the relative drop exceeds the margin, and no non-negative error can do that for a margin of 1 or more |
| `Promoting.MseIsZeroIff` | research_loop/promotion.py:164-201 | The mean squared error is zero exactly when the signal equals the print of every graded decision |
| `Promoting.MseIsMean` | research_loop/promotion.py:164-201 | It times the number of graded decisions is the sum of their squared errors |
| `Promoting.GradedCountIs` | research_loop/promotion.py:164-201 | That number is how many of the decisions have a print |
| `Promoting.PromoteWeights` | research_loop/promotion.py:125-129 | Appends exactly the candidate rows; non-negative candidates keep the ledger valid |
| `Promoting.ProposeValidateAndPromote` | research_loop/promotion.py:245-285 | Passes exactly when the relative drop from the Controller's current error to the candidate's exceeds the margin, never for a margin of 1 or more; a failed validation changes nothing; after a newer promotion the next read returns exactly the proposal, other regimes are untouched and the candidate's error is the Controller's own |
| `Remediation.SlotsToRetireSpec` | research_loop/remediation.py:80-110 | The regimes found are exactly those whose latest weight for the pair is positive |
| `Remediation.LiveMeaning` | research_loop/remediation.py:80-110 | A slot is live when its newest row by (timestamp, id) has a positive weight |
| `Remediation.RetiredInOrder` | research_loop/remediation.py:80-110 | The slots are listed in the order of their regimes |
| `Remediation.RetireDeskForRegime` | research_loop/remediation.py:44-72 | Appends one zero row |
| `Remediation.RetireDeskForAllRegimes` | research_loop/remediation.py:113-149 | Appends one zero row per live slot of the pair |
| `Remediation.ReinstateDeskDirect` | research_loop/remediation.py:152-185 | Refuses a negative weight before writing; otherwise appends one row |
| `Remediation.RetirementReads` | research_loop/remediation.py:113-149 | After a newer retirement every other slot reads as before and the pair's slots read zero |
| `Remediation.RetirementSignal` | research_loop/remediation.py:113-149 | After a newer retirement the Controller computes the sum over the regime's rows without the pair's |
| `Remediation.RetiredIsLeftOutIff` | research_loop/remediation.py:113-149 | That is the leave-the-desk-out signal for every book if and only if no other row of the desk carries weight in the regime |
| `Remediation.RetiredIsLeftOut` | research_loop/remediation.py:113-149 | In particular where the pair is the desk's only row |
| `Remediation.RetiredIdIsOmitted` | controller/decision.py:94-113 | The retired desk's forecast id is no longer recorded |
| `FeedReliability.FeedsMeetingRetirementCriteria` | research_loop/feed_reliability.py:85-108 | Lists, in order, the feeds with an open incident and at least the threshold of registry rows opened in the look-back window |
| `FeedReliability.FeedsEligibleForReinstatement` | research_loop/feed_reliability.py:111-141 | Lists, in order, the feeds without an open incident and without a registry row opened in the recovery window |
| `FeedReliability.CriteriaMeaning` | research_loop/feed_reliability.py:85-141 | Both criteria in terms of the registry's rows: the set of the feed's incidents opened between now less so many days of 86400 seconds and now, and whether one is open |
| `Persistence.CountIsSize` | persistence/db.py:435-455 | The count is the size of the set of the feed's rows opened within the window, bounds included; rows opened outside it contribute nothing |
| `Persistence.CountSplits` | persistence/db.py:435-455 | The counts of adjacent windows add up |
| `FeedReliability.SelectedInOrder` | research_loop/feed_reliability.py:85-141 | Both selections keep the order of the feeds |
| `FeedReliability.ActiveTargetsSpec` | research_loop/feed_reliability.py:277-303 | The targets a desk is live on in some regime |
| `FeedReliability.RetiredSlotsSpec` | research_loop/feed_reliability.py:306-339 | The slots that read zero because of this feed, each once |
| `FeedReliability.ListedInOrder` | research_loop/feed_reliability.py:277-339 | The retired slots are listed by regime, desk and target, a desk's targets by name |
| `FeedReliability.AwaitingMeaning` | research_loop/feed_reliability.py:306-339 | A slot reads zero because of a feed when its newest row is the zero row that the feed's retirement wrote |
| `FeedReliability.LatestNonzeroSpec` | research_loop/feed_reliability.py:242-274 | A last positive weight is found exactly when one was stored by then, and it is that of the newest positive row by (timestamp, id) |
| `FeedReliability.HistoricalShapleyShare` | research_loop/feed_reliability.py:181-239 | The mean share over the reviews that mention the desk; always in [0, 1] |
| `FeedReliability.GroupsExact` | research_loop/feed_reliability.py:210-226 | Each review of the window is grouped with all its rows, and no other review is |
| `FeedReliability.SharesInOrder` | research_loop/feed_reliability.py:228-236 | The shares are taken review by review |
| `FeedReliability.ShareIsPart` | research_loop/feed_reliability.py:228-236 | A desk's share times the review's total magnitude is the desk's magnitude |
| `FeedReliability.SharesSumToOne` | research_loop/feed_reliability.py:228-236 | The shares of the desks of a review that is not all zero add up to one |
| `FeedReliability.MeanOfShares` | research_loop/feed_reliability.py:228-239 | The result times the number of reviews with a share is the sum of those shares, and it is none exactly when no review has one |
| `ReviewHandler.DataIngestionFailure` | research_loop/handlers.py:429-492 | A repeat for an open feed returns the open incident |
| `ReviewHandler.RetirePass` | research_loop/handlers.py:561-608 | Zero rows for live slots of affected desks, each once, charged against the budget in order; afterwards none of them is live |
| `ReviewHandler.ChooseWeight` | research_loop/handlers.py:627-649 | Computes the choice, positive unless it is the seed, and the seed only for a slot without a positive weight |
| `ReviewHandler.ChoiceMeaning` | research_loop/handlers.py:627-649 | A positive mean share comes first, then the newest positive weight up to now; the seed only if there is neither |
| `ReviewHandler.ReinstatePass` | research_loop/handlers.py:617-658 | One row per slot waiting for a recovered feed, with the weight chosen before the pass |
| `ReviewHandler.FeedReliabilityReview` | research_loop/handlers.py:495-692 | Performed is min(rows written, budget) and performed plus skipped is everything written; with a newer timestamp exactly the named slots are retired and reinstated, none twice, each row names a feed that calls for it, and the fallback weight is never used |
| `ReviewHandler.BudgetMeaning` | research_loop/handlers.py:552-557 | The budget is the cap less the distinct slots that feed retirements zeroed in the last 604800 seconds, and never negative |
| `ReviewHandler.MustRetireMeaning` | research_loop/handlers.py:544-574 | A desk is to be retired when a reviewed feed's open incident names it and the feed has at least the threshold of incidents opened in the look-back window |
| `ReviewHandler.MustReinstateMeaning` | research_loop/handlers.py:610-621 | A slot is to be reinstated when its newest row is the zero of a reviewed feed that has nothing open and nothing opened in the recovery window |
| `RetirementCap.RetiredAreDue` | research_loop/handlers.py:561-608 | The rows written are as many as the live slots of the desks to retire, and theirs |
| `RetirementCap.CapKeptIff` | research_loop/handlers.py:509-513 | At most so many slots are retired in the seven days ending with the review if and only if the slots retired before in that week and the slots due now are together no more |
| `RetirementCap.CapReachedIff` | research_loop/handlers.py:595-608 | Something is labelled as skipped if and only if more slots are due than the budget has left |
| `RetirementCap.NothingSkippedKeepsCap` | research_loop/handlers.py:509-608 | A review that skips nothing and starts within the cap keeps it |
| `RetirementCap.CapCanBeExceeded` | research_loop/handlers.py:509-608 | For any cap, a ledger with nothing retired yet on which every review retires one slot more than the cap |
| `RetirementCap.ReviewOverTheCap` | research_loop/handlers.py:509-608 | The review run on that ledger |
| `FeedLatency.StreamedSums` | research_loop/feed_latency_monitor.py:96-103 | The running sum and minimum as drifts of prefixes of the history |
| `FeedLatency.StatisticIsMaxTrailingDrift` | research_loop/feed_latency_monitor.py:96-103 | The streamed statistic is the largest drift over trailing windows, the empty one included |
| `FeedLatency.TrippedIffSomeWindowExceeds` | research_loop/feed_latency_monitor.py:75-109 | The latch is set if and only if some contiguous window since the reset drifted past the threshold |
| `FeedLatency.NonEmptyWindowsSuffice` | research_loop/feed_latency_monitor.py:75-109 | For a non-negative threshold only non-empty windows matter |
| `FeedLatency.TripsAtMostOnce` | research_loop/feed_latency_monitor.py:75-109 | Newly tripped is reported exactly once if the detector has tripped since the reset, else never |
| `FeedLatency.ObserveLatency` | research_loop/feed_latency_monitor.py:143-165 | Raises exactly on a negative latency; otherwise stores the next state |
| `FeedLatency.ObservationTripsIff` | research_loop/feed_latency_monitor.py:143-165 | An observation trips if and only if it completes the first window past the threshold |
| `FeedLatency.ResetForFeed` | research_loop/feed_latency_monitor.py:168-186 | The stored state is the initial one |
| `Firings.BetweenExact` | scheduler/calendar.py:101-119 | The firings of a window are exactly the releases due in it, in time order |
| `Firings.BetweenSplit` | scheduler/calendar.py:101-119 | Adjacent windows concatenate, simultaneous releases included |
| `Firings.FreshExact` | scheduler/calendar.py:130-137 | Fresh firings have new, pairwise different keys and no due key is lost |
| `Firings.RunIsOneAdvance` | scheduler/calendar.py:121-139 | Any calls after the first, backward and repeated ones included, concatenate to one call to the latest time |
| `Firings.LatestIsLargest` | scheduler/calendar.py:121-139 | The latest time of a run of calls is one of them and not before any other |
| `Firings.WholeRun` | scheduler/calendar.py:121-139 | Over a whole run each due (event, timestamp) from a year before the first call to the latest is returned exactly once |
| `Firings.CollectedInOrder` | scheduler/calendar.py:101-119 | Events are asked in the order of the calendar |
| `ReleaseCalendar.Scheduler.FiringsBetween` | scheduler/calendar.py:101-119 | The cron loops and the sort compute the window's firings |
| `ReleaseCalendar.Scheduler.AdvanceTo` | scheduler/calendar.py:121-139 | The object's state and result are those of one step of the clock |
| `ReleaseCalendar.ArrivalMeaning` | scheduler/calendar.py:234-248 | An on-time release is measured against its nearest print, any other against now |
| `ReleaseCalendar.MetLatency` | scheduler/calendar.py:239-248 | A release met on time has the latency of the first of its nearest prints, zero if that print was early |
| `ReleaseCalendar.PendingLatency` | scheduler/calendar.py:246-248 | The latency of a release not met on time is its age |
| `ReleaseCalendar.MetObservation` | scheduler/calendar.py:232-254 | The detector is fed that delay at the time of the pass, under the feed's tolerance in minutes or two hours |
| `ReleaseCalendar.PendingObservation` | scheduler/calendar.py:232-254 | And the age of a release without such a print |
| `ReleaseCalendar.EmittedExact` | scheduler/calendar.py:229-277 | A drift pass emits for a feed if and only if it has no open incident and its detector newly trips in the pass |
| `ReleaseCalendar.EmittedOnce` | scheduler/calendar.py:229-277 | Never twice for one feed in a pass |
| `ReleaseCalendar.EmittedDetails` | scheduler/calendar.py:157-169 | Every event reports the firing that tripped the detector: its feed, due time, the time of the pass, the desks that use the feed, and the detector |
| `ReleaseCalendar.EmittedIffWindow` | scheduler/calendar.py:229-277 | The same in terms of the data: the pass completes the first window whose drift, at 0.005 a step, exceeds 50 |
| `ReleaseCalendar.RunIsOneStream` | scheduler/calendar.py:229-254 | Over any run of passes a feed's detector is fed the whole look-back window of every pass, one after another |
| `ReleaseCalendar.TimesFed` | scheduler/calendar.py:229-254 | A due release is fed, per calendar entry, once for every pass whose fourteen-day window holds it, and otherwise never |
| `ReleaseCalendar.WindowExact` | scheduler/calendar.py:229 | A pass looks at exactly the releases due in the last 1209600 seconds |
| `ReleaseCalendar.FedOnceIffApart` | scheduler/calendar.py:229-254 | Calendars to the second, without repeated entries, have each release fed at most once if and only if any two passes are at least fourteen days apart |
| `ReleaseCalendar.FedOnceOnMinutesIff` | scheduler/calendar.py:229-254 | Calendars to the minute, as five-field crons are, if and only if the passes are so far apart once rounded down to the minute |
| `ReleaseCalendar.Scheduler.CheckLatencyDrift` | scheduler/calendar.py:199-277 | The emitted events and every stored detector after the pass |
| `ReleaseCalendar.Scheduler.HasRecovered` | scheduler/calendar.py:317-335 | True if and only if a release due after the incident opened was met on time |
| `ReleaseCalendar.Scheduler.CheckIncidentRecoveries` | scheduler/calendar.py:279-346 | Closes exactly the recovered open incidents and resets exactly their detectors |
| `ReleaseCalendar.RecoveryOutcome` | scheduler/calendar.py:312-346 | A closed feed ends without open incident and with a zeroed detector; other feeds and closed incidents are unchanged |
| `ReleaseCalendar.RecoveredRows` | scheduler/calendar.py:336-346 | Row by row: an open incident that has recovered gets the time of the check and its feed's recovery tag, every other row is unchanged |
| `ReleaseCalendar.OldestFirst` | persistence/db.py:401-409 | Open incidents are examined oldest first |
| `ReleaseCalendar.RecoveredInOrder` | scheduler/calendar.py:312-346 | The closed feeds are returned in the order in which their incidents were examined |
| `ReleaseCalendar.RecoveryRulesDifferIff` | scheduler/calendar.py:279-346 | Recovery and the documented next-firing rule differ if and only if the first release due after opening was missed and a later one was met; the code then closes the incident |
| `Thinning.EffectiveN` | feasibility/tractability_v1.py:247-265 | Raises exactly on a negative argument; otherwise the number of kept timestamps |
| `Thinning.KeptDecisionTs` | feasibility/tractability_v1.py:268-283 | The greedy pass, without the sign check |
| `Thinning.ThinningIsOptimal` | feasibility/tractability_v1.py:268-283 | Kept timestamps are more than the gap apart, dropped ones within it after a kept one, and no separated selection from the input is larger |
| `Thinning.ThinningMonotone` | feasibility/tractability_v1.py:268-283 | More timestamps never mean fewer kept ones |
| `Thinning.ThinningIgnoresOrder` | feasibility/tractability_v1.py:247-283 | The result depends only on the multiset of timestamps |
| `Tractability.AnchorMeaning` | feasibility/tractability_v1.py:675-681 | A release is anchored to the earliest price at or after it, exactly when a full horizon of prices follows |
| `Tractability.BuildTargetObservations` | feasibility/tractability_v1.py:661-700 | Raises exactly for a non-positive horizon; otherwise the anchored releases in anchor order, each with its return, magnitude and adverse excursion |
| `Tractability.ReleasesInOrder` | feasibility/tractability_v1.py:667-698 | Before the sort the releases of a family are in their own order |
| `Tractability.FamiliesInOrder` | feasibility/tractability_v1.py:667-698 | And the families in theirs |
| `Tractability.OutcomeMeaning` | feasibility/tractability_v1.py:681-697 | The return is the last log price of the horizon less the first, the magnitude its absolute value, and the adverse excursion the largest move against the return, zero if there is none |
| `Tractability.ApplyQualityFilter` | feasibility/tractability_v1.py:703-723 | Keeps exactly the observations whose family name is admissible, the last family of a name deciding |
| `Tractability.AdmissibleIff` | feasibility/tractability_v1.py:715-722 | A family is admissible exactly when it counts a release as true_first_release or release_lag_safe_revision_unknown |
| `Tractability.OtherTagsContributeNothing` | feasibility/tractability_v1.py:703-723 | A name whose deciding family counts releases under other tags only contributes nothing to the count of any target |
| `Tractability.LastOfTheName` | feasibility/tractability_v1.py:711-723 | Of several families of one name the last decides |
| `Tractability.QualityFilterExact` | feasibility/tractability_v1.py:703-723 | Each observation of an admissible name is kept as often as it occurs, any other is dropped |
| `Tractability.QualityFilterInOrder` | feasibility/tractability_v1.py:723 | The observations kept stay in order |
| `Tractability.SelectKeptObservations` | feasibility/tractability_v1.py:739-753 | The first observation of each kept timestamp |
| `Tractability.FirstAtIsFirst` | feasibility/tractability_v1.py:739-753 | The observation remembered for a timestamp is the first one listed there |
| `Tractability.OneObservationPerAnchor` | feasibility/tractability_v1.py:739-753 | Exactly one observation per kept timestamp |
| `Tractability.UsableAnchors` | feasibility/tractability_v1.py:756-774 | The waterfall before thinning is the sum of the admitted families' anchored releases from 2020 on |
| `Tractability.ComputeTargetResult` | feasibility/tractability_v1.py:756-780 | The counts of the waterfall and the kept observations |
| `Tractability.AddingNeverLowersN` | feasibility/tractability_v1.py:756-780 | Adding a family with a new name, or an admissible one, never lowers the count of any target |
| `Tractability.InadmissibleNamesakeDiscards` | feasibility/tractability_v1.py:703-723 | An inadmissible family under a present name leaves the count without that name, never more than before |
| `Tractability.NamesakeCanLowerN` | feasibility/tractability_v1.py:703-723 | Two families of one name for which the count drops from one to zero |
| `Tractability.FamilyOrderIsIrrelevant` | feasibility/tractability_v1.py:756-780 | The count does not depend on the order of consistently named families |
| `FamilyOrder.OrderMattersIff` | feasibility/tractability_v1.py:703-780 | Another order of the families changes some target's count, for some non-negative gap, if and only if a name with admissible and inadmissible families has a release that no always admissible other name covers |
| `AdditiveN.CoveredAnchor` | feasibility/tractability_v1.py:675-681 | A release at o is anchored wherever one at t is, if o lies between t and the later of t and the start of 2020 |
| `AdditiveN.ThinningBySet` | feasibility/tractability_v1.py:268-283 | With a non-negative gap only the set of timestamps matters |
| `AdditiveN.LowersIff` | feasibility/tractability_v1.py:756-780 | A candidate lowers the count of some target, for some non-negative gap, if and only if it is inadmissible, takes a name that was admissible so far, and one of that name's releases has no release of another admissible name between it and the later of it and the start of 2020 |
| `AdditiveN.LowersWithNegativeGapIff` | feasibility/tractability_v1.py:268-283 | With a negative gap, which the thinning of a target does not refuse, any release of the discarded name is enough |
| `AdditiveN.AdditiveContribution` | feasibility/tractability_v1.py:893-935 | Raises exactly if some horizon is not positive; otherwise the dictionary of base count, count with the candidate and difference |
| `AdditiveN.ContributionsExact` | feasibility/tractability_v1.py:909-935 | The dictionary holds exactly the last target of each name, with the count without the candidate, the count with it, and their difference |
| `AdditiveN.AdditiveGuard` | feasibility/tractability_v1.py:960-1010 | The whole loop: bad horizons, the force list, a missing justification, and the target reported in the error |
| `AdditiveN.FlaggedIffLowers` | feasibility/tractability_v1.py:979-980 | The check of a family finds a negative delta if and only if the family lowers a reported target's count |
| `AdditiveN.GuardMeaning` | feasibility/tractability_v1.py:963-1010 | Every family before the one a verdict names lowers nothing reported or was forced and justified; the named one lowers the reported target by the reported amount |
| `AdditiveN.PassedListsFlagged` | feasibility/tractability_v1.py:981-999 | A guard that passes lists exactly the families that lower a reported target, in order, with their negative deltas |
| `AdditiveN.DeltasExact` | feasibility/tractability_v1.py:994-996 | Each forced inclusion records the difference of every flagged target, in order |
| `AdditiveN.PassesIff` | feasibility/tractability_v1.py:963-1010 | Without a force list the guard passes if and only if no family lowers a reported target |
| `AdditiveN.OnlyDiscardersAreFlagged` | feasibility/tractability_v1.py:963-1010 | Only a family that discards an admissible earlier name can be flagged; with a non-negative gap, an uncovered release of it |
| `AdditiveN.DistinctNamesPass` | feasibility/tractability_v1.py:963-1010 | Families with distinct names pass on all targets, with nothing forced |
| `Cpcv.BlocksAreEven` | v2/eval/cpcv.py:40-49 | The bounds partition [0, n) into non-empty contiguous blocks of n/N or n/N + 1 observations |
| `Edges.EdgeIsFloor` | v2/eval/cpcv.py:40-49 | The edges are the exact i * n / N, rounded down |
| `Cpcv.BlockOf` | v2/eval/cpcv.py:40-49 | Every observation lies in exactly one block |
| `Cpcv.MakeMasks` | v2/eval/cpcv.py:67-77 | The in-place masks mark exactly the tested and the purged observations |
| `Cpcv.GenerateCpcvSplits` | v2/eval/cpcv.py:52-90 | Raises exactly on invalid parameters; otherwise C(N, k) splits in combination order, each with exactly the tested and unpurged indices, none leaking a label, and every observation in C(N-1, k-1) test sets |
| `Cpcv.AssertNoLabelLeakage` | v2/eval/cpcv.py:93-108 | Raises if and only if some training label window meets the test set |
| `Cpcv.NeverLeaks` | v2/eval/cpcv.py:52-108 | The leakage checker passes on every generated split |
| `Cpcv.EmbargoHolds` | v2/eval/cpcv.py:70-81 | No training index lies in the embargo after a test block, and train and test are disjoint |
| `Cpcv.PurgeIsTight` | v2/eval/cpcv.py:70-81 | Every dropped index would leak a label or sits in an embargo |
| `Cpcv.EachTestedEquallyOften` | v2/eval/cpcv.py:64-90 | Every observation is tested in exactly C(N-1, k-1) of the generator's splits |
| `Degradation.StepIsNext` | v2/execution/degradation.py:58-127 | With valid arguments a tick never raises and yields a valid state; it raises exactly on a bad configuration |
| `Degradation.DecisionForgetsThePast` | v2/execution/degradation.py:80-127 | Whatever the state and the valid ticks before it, a fresh decision b followed by stale ticks ys leaves an exposure that depends on b and ys only: b itself for no ticks, else the closed form with entry b |
| `Degradation.HaltOverridesDecision` | v2/execution/degradation.py:80-88 | A halting tick zeroes the target, keeps the last valid target and counts up, even if it carries a decision |
| `Degradation.DecayMeaning` | v2/execution/degradation.py:118-127 | A decay multiplies by 1 - rate and sets what is closer to zero than 1e-12 to zero |
| `Degradation.StepsAreRuns` | v2/execution/degradation.py:58-127 | No run of valid ticks raises |
| `Degradation.BoundIsKept` | v2/execution/degradation.py:80-127 | |target| <= |last valid target| is kept over every run |
| `Degradation.StaleTicksCount` | v2/execution/degradation.py:80-127 | Ticks without a fresh decision count up and leave the last valid target alone |
| `Degradation.AfterTheWindow` | v2/execution/degradation.py:96-127 | Past the soft window SOFT_ABSTAIN is unreachable and each tick zeroes or decays the target |
| `Degradation.NeverLarger` | v2/execution/degradation.py:96-127 | Past the window the target never grows until a fresh decision |
| `Degradation.InWindowClosedForm` | v2/execution/degradation.py:80-115 | Inside the soft window only the last stale tick counts: zero after a halt or a breached limit, else the last valid target |
| `Degradation.PastWindowClosedForm` | v2/execution/degradation.py:96-127 | From any state past the window, k stale ticks give zero if any of them halts or breaches the limit, else target * (1 - rate)^k cut to zero once below the threshold |
| `Degradation.StaleRunClosedForm` | v2/execution/degradation.py:80-127 | The whole exposure after every stale run from every state, across the end of the window |
| `Degradation.HaltedTargetReturnsIff` | v2/execution/degradation.py:80-127 | Exactly when a zeroed target is non-zero again at the end of a stale run |
| `Degradation.HaltedTargetCanReturnIff` | v2/execution/degradation.py:80-127 | Some stale run brings a zeroed target back if and only if the soft window is still open and the last valid target is not zero |
| `Degradation.FlatInTime` | v2/execution/degradation.py:118-127 | With decay rate > 0 and c >= 1/rate the target is exactly zero after 40 c stale ticks past the window, and stays so |
| `Degradation.EpisodeClosedForm` | v2/execution/degradation.py:96-127 | After k abstaining ticks the target is b within the window, then b (1 - rate)^(k - n_soft), cut to zero once below the threshold |
| `ForecastChain.EntryAt` | feasibility/scripts/forward_wti_lag_1d.py:364-396 | Each entry has the schema tag, its line's number from one, the line's two ids and hash, the hash of the entry before it or GENESIS, and the hash of all that |
| `ForecastChain.HeadDeterminesLines` | feasibility/scripts/forward_wti_lag_1d.py:364-396 | Under a collision-free hash, chains with the same head belong to identical forecast lines |
| `ForecastChain.TamperEvidence` | feasibility/scripts/forward_wti_lag_1d.py:405-450 | Two verified ledgers with the same head hash have identical forecast lines and chain entries |
| `ForecastChain.AppendIsRebuild` | feasibility/scripts/forward_wti_lag_1d.py:460-473 | Appending increments gives the chain a rebuild from scratch gives |
| `ForecastChain.AppendVerifiesIff` | feasibility/scripts/forward_wti_lag_1d.py:453-482 | The appended ledger is verified if and only if the new event ids are distinct and not in the ledger |
| `ForecastChain.DuplicateIsPermanent` | feasibility/scripts/forward_wti_lag_1d.py:439-442 | A ledger with a repeated event id never verifies again, whatever is appended |
| `ForecastChain.ForwardLedger.BuildEntries` | feasibility/scripts/forward_wti_lag_1d.py:383-396 | The loop builds the chain, or raises on an unreadable line |
| `ForecastChain.ForwardLedger.CheckLines` | feasibility/scripts/forward_wti_lag_1d.py:422-450 | The scan succeeds exactly on a verified ledger and returns its length and head |
| `ForecastChain.ForwardLedger.VerifyForecastChain` | feasibility/scripts/forward_wti_lag_1d.py:405-450 | Bootstraps a missing chain when asked, and succeeds exactly on a verified ledger |
| `ForecastChain.ForwardLedger.AppendForecasts` | feasibility/scripts/forward_wti_lag_1d.py:453-482 | The exact new contents of both files, and success exactly for fresh distinct event ids |

## Left out

- HAC effective N, block bootstrap, power calculations and the statistics of a target's values: random sampling and numerical library work.
- Logarithms of prices: a parameter of the targets; the statistics of the observations' values start from the modelled outcomes.
- Floating-point rounding: amounts are reals, `np.isclose` in the LODO reproduction check is equality, and `np.linspace(..., dtype=int)` is the exact floor of i*n/N.
- `_normalized_grading_inputs`: the grading roll-up starts from normalised books and prints.
- Cases rejected only by types: an unknown mode string, naive timestamps, an unknown target metric, a wrong event type.
- Seeded generators: the shuffles of each decision are a parameter, required only to be rearrangements of the desks.
- SQL text, JSON, UUIDs and time zones: ids are fresh integers, keys and tags are datatype constructors (so the LIKE patterns on tags are exact), and rows with equal sort keys keep their insertion order.
- Cron expressions and daylight saving: `Event.next` is any function that gives a strictly later next due time.
- SHA-256, canonical JSON and files: `Codec` is any collision-free hash that never yields "GENESIS" with a decoder that inverts the encoder; files are their non-blank lines, and creating an empty file is not modelled.
- `check_ingestion_misses`, the bus (which stores whatever weight it is handed), `from_config` and `submit_feed_reliability_review` of the scheduler: settled by reading one branch, or plumbing.
- `propose_and_promote_from_shapley`, `improvement_ratio`, and the handlers for gate failures, regime transitions and weekly reviews: they call the modelled functions or record text.
- The regime fallback of `propose_weights_from_shapley` for rows without a regime: rows read from the ledger always carry one.
- The residual mode of `compute_target_result`: it does not change the counts.
- Simulators, ridge desks, classifiers, HTTP ingesters, report writers and command lines: numerical or input-output code.
