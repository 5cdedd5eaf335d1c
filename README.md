# Decision-driven data contracts, in Dafny

This project models the core of a data-contract gate for incoming tabular
datasets. A dataset moves through four stages:

1. **Validation.** The dataset is checked against a contract that declares
   features. Each feature has a type, a criticality tier and constraints.
2. **Scoring.** The validator's metrics become a risk score: a
   criticality-weighted sum of null rates, rounded to two decimals, with a
   list of reasons.
3. **Decision.** The score picks one of three decisions: `ALLOW`,
   `ALLOW_WITH_ALERT` or `BLOCK_AND_ROLLBACK`.
4. **Action.** The decision moves the artifact from the incoming area to the
   validated or rejected area, and one entry is appended to the decision log.

A dashboard reads that log back. It keeps the records inside a lookback
window and summarises them: counts, the latest record, a severity trend, the
most frequent reasons and a RED/YELLOW/GREEN health signal.

Modules, one file each:

- `Wrappers` (`wrappers.dfy`): `Option` and `Result`.
- `Seqs` (`seqs.dfy`): `FilterMap`, an order-keeping filter-and-map, with lemmas about which positions it keeps.
- `Contracts` (`contracts.dfy`): the contract document.
- `Frames` (`frames.dfy`): the dataset, with its columns, cells, row count and provenance attributes, plus the column statistics.
- `Validator` (`validator.dfy`): `DataValidator.validate`.
- `Risk` (`risk.dfy`): `RiskScore` and `RiskEngine.compute`.
- `Decisions` (`decisions.dfy`): `Decision` and `DecisionEngine.decide`.
- `Actions` (`actions.dfy`): `ActionExecutor`.
- `Dashboard` (`dashboard.dfy`): `SystemState`.
- `Pipeline` (`pipeline.dfy`): the stages composed as the pipeline script and the CI gate use them.

The validator's loop, the risk engine's loop and the dashboard's loading loop
are `method`s with loop invariants. Each is proved equal to a specification
function (`ValidateSpec`, `RiskOf`, `Recent`), and the lemmas state their
properties about those functions.

The action executor is a class. Its fields are the three storage areas, as
sets of file names, and the log. `Execute` is proved against `ExecuteSpec`.

The dashboard state is a class holding the loaded records. Its summaries are
functions that read it.

## Model

| member | source | states |
|---|---|---|
| Contracts.Features | engine/validator.py:19 | The declared features in contract order; none when the contract has no `features` key. |
| Frames.NullFraction | engine/validator.py:34 | The null rate is between 0 and 1. It is 0 iff no cell is missing, and 1 iff the column is non-empty and every cell is missing. |
| Frames.NullCountIsMultiplicity | engine/validator.py:34 | The number of missing cells counted is the number of occurrences of a missing value in the column. |
| Frames.NullFractionIsMean | engine/validator.py:34 | For a non-empty column, the null rate is the number of missing cells divided by the column's length, as `isna().mean()`. |
| Frames.ColumnMin | engine/validator.py:44 | None iff every cell is missing. Otherwise it is a present value no larger than any present value. |
| Frames.ColumnMax | engine/validator.py:46 | None iff every cell is missing. Otherwise it is a present value no smaller than any present value. |
| Frames.AllDistinct | engine/validator.py:50 | `is_unique`: true iff no two cells are equal. |
| Validator.KeyTextInjective | engine/validator.py:35-53 | Two metric keys with the same text `<feature>.<statistic>` or `row_count` are the same key. |
| Validator.RecordFeatureKeys | engine/validator.py:34-51 | Recording a present feature adds exactly the keys its declaration asks for, with the column's statistics, and leaves every other key as it was. |
| Validator.Validate | engine/validator.py:16-55 | The loop returns `ValidateSpec`: the metrics of the present features plus `row_count` equal to the number of rows, and the missing-column violations. |
| Validator.MetricsOfKeys | engine/validator.py:21-51 | A key `<f>.<s>` is recorded iff `f` is declared, its column exists and its declaration asks for `s`. The value is that statistic of the column. |
| Validator.ValidateMetricsExact | engine/validator.py:34-53 | Every key of the result is `row_count` (the row count, whatever the contract) or a statistic of a declared, present feature. |
| Validator.MissingFeature | engine/validator.py:22-31 | A declared feature without a column raises a `missing_column` violation and gets no `<feature>.*` key. With distinct feature names, it raises exactly one. |
| Validator.PresentFeature | engine/validator.py:34-39 | A present feature gets `null_rate`, the column's fraction of missing cells in [0,1], and `dtype`, its type tag. |
| Validator.BoundsIffDeclared | engine/validator.py:42-46 | `<f>.min` is recorded iff the column exists and `min` is a constraint key; likewise `max`. The value is the column's extreme, and the declared bound plays no part. |
| Validator.DuplicateRatioCoarse | engine/validator.py:49-51 | `<f>.duplicate_ratio` is recorded iff the column exists and `unique` is truthy. It is 0 or 1, and 0 iff no two cells are equal. |
| Validator.ViolationsInContractOrder | engine/validator.py:21-31 | The violations follow contract order, one per declared feature without a column. Their number is the number of such features. |
| Validator.MissingFeatureAddsNoMetric | engine/validator.py:24-31 | A declared feature without a column leaves the metrics as if it were not declared. |
| Validator.EmptyContract | engine/validator.py:19-53 | A contract without `features` gives no violations and only `row_count`. |
| Risk.Weight | engine/risk.py:21-27 | The weight is 1.0 iff the criticality is `tier_1`, and 0.5 otherwise, including when criticality is absent. |
| Risk.Round2 | engine/risk.py:3 | The stored score is within 0.005 of the raw score. |
| Risk.Round2Monotone | engine/risk.py:3 | Rounding keeps the order of scores. |
| Risk.MakeRiskScore | engine/risk.py:1-4 | The constructor rounds the score to within 0.005 and keeps the reasons. |
| Risk.Compute | engine/risk.py:14-40 | The loop returns `RiskOf`: the rounded weighted sum of the present null rates, with the reasons. |
| Risk.RawScoreAppend | engine/risk.py:20-33 | The score is additive over a split of the declared features. |
| Risk.AbsentMetricContributesNothing | engine/risk.py:30-31 | A feature with no `null_rate` metric changes neither the score nor the reasons. |
| Risk.RawScoreNonNegative | engine/risk.py:33 | With no negative null rate, the score is not negative. |
| Risk.RawScoreZero | engine/risk.py:24-33 | With every null rate zero, the score is zero. |
| Risk.RawScoreAtLeastOneTerm | engine/risk.py:33 | With no negative null rate, each feature's weighted null rate is a lower bound of the score. |
| Risk.RawScoreMonotone | engine/risk.py:33 | Raising null rates never lowers the unrounded score. |
| Risk.ReasonsExact | engine/risk.py:35-38 | The reasons name exactly the features with a positive null rate, in contract order, one each, with the rate rounded. |
| Risk.ScoreNotClamped | engine/risk.py:33-40 | The score is not clamped: two entirely null `tier_1` features score 2.0. |
| Decisions.Decide | engine/decision.py:19-40 | BLOCK_AND_ROLLBACK iff score >= 0.7; ALLOW_WITH_ALERT iff 0.4 <= score < 0.7; ALLOW iff score < 0.4. |
| Decisions.DecisionTable | engine/decision.py:22-40 | Every decision is one of the three fixed (name, severity, reason) rows. |
| Decisions.NameDeterminesDecision | engine/decision.py:22-40 | Two decisions with the same name are equal. |
| Decisions.DecideReadsOnlyScore | engine/decision.py:20 | Equal scores give equal decisions, whatever the reasons. |
| Decisions.DecideMonotone | engine/decision.py:22-40 | A higher score never yields a lower severity. |
| Decisions.BandBoundaries | engine/decision.py:22-34 | 0.4 and 0.7 fall in the higher band; 0.39 is ALLOW, 0.69 an alert, and 1.5 a block. |
| Actions.TargetOf | engine/actions.py:39-44 | ALLOW goes to the validated area. ALLOW_WITH_ALERT and BLOCK_AND_ROLLBACK go to the rejected area. Any other name goes nowhere. |
| Actions.ActionExecutor.constructor | engine/actions.py:8-20 | The executor starts with the given storage areas and log. |
| Actions.ActionExecutor.Execute | engine/actions.py:22-50 | Fails, changing nothing, iff `source_file` is missing or empty. Otherwise it moves the artifact as the decision says, appends the entry it returns, and matches `ExecuteSpec`. |
| Actions.ActionExecutor.MoveFile | engine/actions.py:52-57 | Moves the named artifact out of the incoming area into the target when it is there, else changes nothing. |
| Actions.MoveTouchesOnlyNamed | engine/actions.py:52-57 | A move leaves every other file where it was. |
| Actions.MovePlacesArtifact | engine/actions.py:52-57 | A move takes the artifact from the incoming area to the target. It does nothing when the artifact is no longer incoming. |
| Actions.MoveConservesFiles | engine/actions.py:52-57 | A move neither creates nor loses a file. |
| Actions.ExecuteAppendsOne | engine/actions.py:23-50 | A success appends exactly one entry at the end, with earlier entries unchanged. The entry is the one returned, built from the decision and the provenance. |
| Actions.ExecuteRoutesArtifact | engine/actions.py:39-44 | The decision name routes an incoming artifact to its area; an unknown name moves nothing. |
| Actions.RetryLogsDuplicate | engine/actions.py:46-57 | A repeated call still succeeds, moves nothing more, and logs a second entry equal to the first but for its timestamp. |
| Dashboard.RecentExact | dashboard/state.py:23-31 | The window holds exactly the records at or after the cutoff, in log order. |
| Dashboard.Latest | dashboard/state.py:44-47 | `max` by timestamp: None iff there are no records. Otherwise it is the first record with the greatest timestamp. |
| Dashboard.SortByTime | dashboard/state.py:64 | The sorted records are a permutation of the records, in non-decreasing timestamp order. |
| Dashboard.SortByTimeStable | dashboard/state.py:64 | The sort is stable: records with equal timestamps keep their log order. |
| Dashboard.RiskTrendFacts | dashboard/state.py:51-65 | One value per record, in timestamp order of a stable sort. Each value is 0.0, 0.5 or 1.0, with 1.0 iff CRITICAL and 0.5 iff WARN. |
| Dashboard.Distinct | dashboard/state.py:68 | The distinct reasons, each once, with the same membership as the records. |
| Dashboard.Tallies | dashboard/state.py:68 | `Counter` items: distinct keys, each paired with its number of occurrences. |
| Dashboard.SortByCount | dashboard/state.py:69 | The pairs sorted by non-increasing count, as a permutation. |
| Dashboard.SortByCountKeys | dashboard/state.py:69 | Sorting keeps the keys distinct. |
| Dashboard.MostCommonFacts | dashboard/state.py:67-69 | `most_common(k)` lists min(k, number of distinct reasons) pairs, none when k <= 0. Each reason appears once, with its exact count, in non-increasing count order. |
| Dashboard.MostCommonLeavesOutLess | dashboard/state.py:67-69 | No reason left out of the top k occurs more often than any listed one. |
| Dashboard.SystemState.constructor | dashboard/state.py:8-17 | After construction, `decisions` is the window of the log, or empty when there is no log file. |
| Dashboard.SystemState.Load | dashboard/state.py:19-31 | Appends the records at or after `now - lookback_hours`, in log order, and does nothing when the log file is missing. |
| Dashboard.SystemState.DecisionCounts | dashboard/state.py:35-39 | The decision counts add up to `total_events`. A name is counted iff it occurs, and each name's count is the number of records that carry it. |
| Dashboard.SystemState.SeverityCounts | dashboard/state.py:41-42 | The severity counts add up to `total_events`. A severity is counted iff it occurs, and each severity's count is the number of records that carry it. |
| Dashboard.SystemState.LatestDecision | dashboard/state.py:44-47 | None iff there are no records. Otherwise it is a loaded record whose timestamp is at least every record's. |
| Dashboard.SystemState.RiskTrend | dashboard/state.py:51-65 | Length `total_events`; every value is 0.0, 0.5 or 1.0. |
| Dashboard.SystemState.FrequentReasons | dashboard/state.py:67-69 | At most `top_k` reasons, with distinct keys, each with its positive occurrence count, in non-increasing count order. |
| Dashboard.SystemState.SystemHealth | dashboard/state.py:73-85 | RED iff some record is CRITICAL. YELLOW iff none is CRITICAL and some is WARN. GREEN otherwise. |
| Pipeline.ValidatedRates | engine/risk.py:30-33 | Every `null_rate` the validator records is a number in [0,1], so the risk engine's `float()` accepts it. |
| Pipeline.Assess | scripts/ci_check.py:16-19 | The score of a validated dataset is never negative. |
| Pipeline.EmptyDatasetAllowed | engine/risk.py:24-33 | A dataset with no rows, each column holding one cell per row, scores 0. It is ALLOWed and passes the CI gate. |
| Pipeline.CiGateMatchesDecision | scripts/ci_check.py:21 | The CI gate (`score >= 0.4`) fails iff the decision is not ALLOW. |
| Pipeline.AllNullNeverAllowed | tests/test_contract_break.py:20-40 | A declared feature whose column is entirely null scores at least 0.5, whatever its tier. Such a dataset is never ALLOWed and fails the CI gate. |
| Pipeline.AllNullTier1Blocks | engine/risk.py:24-33 | An entirely null `tier_1` feature scores at least 1.0, so the decision is BLOCK_AND_ROLLBACK / CRITICAL. |
| Pipeline.MissingColumnTolerated | engine/risk.py:30-31 | A declared feature missing from the dataset leaves score and reasons as if it were not declared. |
| Pipeline.Run | scripts/run_pipeline.py:20-32 | Validate, score, decide, then execute. The decision is `Decide(Assess(...))`, and the executor's new state is `ExecuteSpec`'s. |
| Pipeline.AllNullTier1Rejected | scripts/run_pipeline.py:20-32 | End to end, an entirely null `tier_1` feature gets the artifact rejected, with one BLOCK_AND_ROLLBACK / CRITICAL entry logged. |

## Left out

- Reading files:
  - The loader (`engine/loader.py`) is not modelled. It lists `*.csv` in the input directory with `glob`, sorts the names, and reads the last one. When there is no CSV it raises `FileNotFoundError`, which ends the run; that error path is not modelled either.
  - The dataset arrives as a value carrying its `source_file` and `row_count` attributes.
  - The log file arrives as `Option<seq<LogEntry>>`, None when the file does not exist.
  - JSON encoding of log lines and YAML contract loading are not modelled.
- `pandera` is imported by the validator but never used.
- `expected_type` (the declared `type`) is read by the validator but never used, so it has no effect in the model.
- Values and dtypes:
  - Column cells are integers or missing. `min`/`max` over mixed or non-numeric types are not modelled.
  - `str(series.dtype)` is kept as an opaque string.
- Frames.NullFraction: an empty column's null rate is 0 here, where pandas gives NaN. With NaN the source's score is NaN and every comparison in `decide` is false, so the decision is ALLOW. The model also decides ALLOW, but its score is 0 rather than NaN. `Pipeline.EmptyDatasetAllowed` proves this for a dataset with no rows whose columns all have one cell per row.
- Floating point:
  - Scores and rates are exact reals, so binary floating-point summation error is not modelled.
- Risk.Round2: at a real number exactly halfway between two hundredths, the model rounds up.
  - Python rounds the nearest binary float instead, which usually lies just above or just below the halfway point.
  - So the rounded score and the rate in a reason can differ. At 0.395 or 0.695 the decision can differ too.
  - Example: a `tier_1` column with 139 of 200 cells missing. Python gives `round(0.695, 2) == 0.69`, so ALLOW_WITH_ALERT / WARN. The model gives 0.70, so BLOCK_AND_ROLLBACK / CRITICAL.
  - On a value that is exactly representable and halfway, Python rounds half to even, as in `round(0.125, 2) == 0.12`.
  - The contract states only the bound `-0.005 <= r - x <= 0.005` and monotonicity, which hold for both. The lower bound is not strict because of the half-to-even case.
- Risk.RatesAreNumbers: `compute` calls `float()` on each null rate, which fails on a non-number. The model requires every `null_rate` metric to be a rate. `Pipeline.ValidatedRates` proves the validator's output always meets this.
- Reasons are kept as (feature, rounded rate) pairs. The text `"<feature>: null_rate=<rate>"` is not modelled.
- Unread state: the `DecisionEngine` and `RiskEngine` constructors store the contract. `decide` never reads it, so `Decide` takes only the score.
- Time: `datetime.utcnow()` is the parameter `now`, and timestamps are integer microseconds, the resolution of `isoformat()`.
  - The source compares parsed datetimes in `_load`, but raw ISO strings in `max` and `sorted`.
  - `isoformat()` omits the fraction when it is zero. A shorter string then sorts before any longer string that extends it, so the string order and the time order still agree. One integer order stands for both.
- Storage:
  - `shutil.move` is modelled as a set update.
  - Overwriting an existing target file and `mkdir` are not modelled.
  - Concurrent writers and the atomicity of log appends are not modelled.
- Dashboard `Counter`:
  - It is modelled as a multiset of strings, and `most_common` as a stable sort by count of the items in first-occurrence order.
  - Ties are broken by first occurrence, but no contract promises a particular tie order.
  - Calling `frequent_reasons` with `top_k=None` is not modelled.
- Dashboard.SystemState.TotalEvents: it is `len(decisions)` and has no contract of its own. Its properties appear in `DecisionCounts` and `SeverityCounts`.
- `dashboard/app.py` and the console output of the scripts only print, and are not modelled.
- `sys.exit` in `scripts/ci_check.py` is not modelled; the gate is the predicate `CiGateFails`.
- The test reads `contracts/user_features.yaml`, which is not part of the model. `AllNullNeverAllowed` therefore covers any contract that declares the all-null feature, and does not rely on one particular contract.
