/**
 * The stages composed as the pipeline and the CI gate run them: validate
 * the dataset against the contract, score the metrics, decide, and act on
 * the decision.
 */
module Pipeline {
  import opened Wrappers
  import opened Contracts
  import opened Frames
  import opened Validator
  import opened Risk
  import opened Decisions
  import opened Actions

  /** Every null rate the validator records is a number between 0 and 1. */
  lemma ValidatedRates(c: Contract, df: DataFrame)
    ensures var m := ValidateSpec(c, df).metrics;
      && RatesAreNumbers(m)
      && forall k :: k in m && k.Stat? && k.stat == NullRate ==> 0.0 <= m[k].rate <= 1.0
  {
    var m := ValidateSpec(c, df).metrics;
    forall k | k in m && k.Stat? && k.stat == NullRate
      ensures m[k].Rate? && 0.0 <= m[k].rate <= 1.0
    {
      ValidateMetricsExact(c, df, k);
    }
  }

  /**
   * `RiskEngine(contract).compute(DataValidator(contract).validate(df).metrics)`:
   * never negative, since every null rate lies between 0 and 1.
   */
  function Assess(c: Contract, df: DataFrame): (risk: RiskScore)
    ensures risk.score >= 0.0
  {
    ValidatedRates(c, df);
    var m := ValidateSpec(c, df).metrics;
    RawScoreNonNegative(Features(c), m);
    Round2Monotone(0.0, RawScore(Features(c), m));
    Round2Exact(0);
    RiskOf(Features(c), m)
  }

  /** `ci_check`: the build fails when the score reaches 0.4. */
  predicate CiGateFails(risk: RiskScore) {
    risk.score >= 0.4
  }

  /** The CI gate fails exactly when the decision would not be ALLOW. */
  lemma CiGateMatchesDecision(risk: RiskScore)
    ensures CiGateFails(risk) <==> Decide(risk).name != Allow
  {
  }

  /**
   * A declared feature whose column is entirely null puts the score at 0.5
   * or more, whatever its tier: such a dataset is never allowed and fails the
   * CI gate.
   */
  lemma AllNullNeverAllowed(c: Contract, df: DataFrame, i: int)
    requires 0 <= i < |Features(c)|
    requires Features(c)[i].name in df.columns
    requires var cells := df.columns[Features(c)[i].name].cells;
      |cells| > 0 && forall j :: 0 <= j < |cells| ==> cells[j].None?
    ensures Assess(c, df).score >= 0.5
    ensures Decide(Assess(c, df)).name != Allow
    ensures CiGateFails(Assess(c, df))
  {
    var fs := Features(c);
    var m := ValidateSpec(c, df).metrics;
    ValidatedRates(c, df);
    PresentFeature(c, df, i);
    assert m[Stat(fs[i].name, NullRate)].rate == 1.0;
    RawScoreAtLeastOneTerm(fs, m, i);
    Round2Monotone(50 as real / 100.0, RawScore(fs, m));
    Round2Exact(50);
  }

  /**
   * A dataset with no rows, every column empty, scores 0 and is allowed:
   * every recorded null rate is that of an empty column.
   */
  lemma EmptyDatasetAllowed(c: Contract, df: DataFrame)
    requires WellFormed(df) && df.rows == 0
    ensures Assess(c, df).score == 0.0
    ensures Decide(Assess(c, df)).name == Allow
    ensures !CiGateFails(Assess(c, df))
  {
    var m := ValidateSpec(c, df).metrics;
    ValidatedRates(c, df);
    forall k | k in m && k.Stat? && k.stat == NullRate
      ensures m[k].rate == 0.0
    {
      ValidateMetricsExact(c, df, k);
    }
    RawScoreZero(Features(c), m);
    Round2Exact(0);
  }

  /** An entirely null `tier_1` feature puts the score at 1.0 or more: the artifact is blocked. */
  lemma AllNullTier1Blocks(c: Contract, df: DataFrame, i: int)
    requires 0 <= i < |Features(c)|
    requires Features(c)[i].spec.criticality == Some(Tier1)
    requires Features(c)[i].name in df.columns
    requires var cells := df.columns[Features(c)[i].name].cells;
      |cells| > 0 && forall j :: 0 <= j < |cells| ==> cells[j].None?
    ensures Assess(c, df).score >= 1.0
    ensures Decide(Assess(c, df)) == Decision(BlockAndRollback, Critical, BlockReason)
  {
    var fs := Features(c);
    var m := ValidateSpec(c, df).metrics;
    ValidatedRates(c, df);
    PresentFeature(c, df, i);
    assert m[Stat(fs[i].name, NullRate)].rate == 1.0;
    RawScoreAtLeastOneTerm(fs, m, i);
    Round2Monotone(100 as real / 100.0, RawScore(fs, m));
    Round2Exact(100);
  }

  /**
   * A declared feature missing from the dataset is tolerated: the score and
   * the reasons are what they would be had it not been declared.
   */
  lemma MissingColumnTolerated(a: seq<Feature>, f: Feature, b: seq<Feature>, df: DataFrame)
    requires f.name !in df.columns
    ensures Assess(Contract(Some(a + [f] + b)), df) == Assess(Contract(Some(a + b)), df)
  {
    var c := Contract(Some(a + [f] + b));
    var m := ValidateSpec(c, df).metrics;
    ValidatedRates(c, df);
    MissingFeatureAddsNoMetric(a, f, b, df);
    ValidateMetricsExact(c, df, Stat(f.name, NullRate));
    AbsentMetricContributesNothing(a, f, b, m);
  }

  /**
   * `run_pipeline.run`: validate, score, decide, then let the executor act
   * on the decision at clock reading `now`.
   */
  method Run(contract: Contract, df: DataFrame, executor: ActionExecutor, now: int)
    returns (decision: Decision, outcome: Result<LogEntry, ExecError>)
    modifies executor
    ensures decision == Decide(Assess(contract, df))
    ensures outcome.Failure? ==> executor.Areas() == old(executor.Areas()) && executor.log == old(executor.log)
    ensures match ExecuteSpec(old(executor.Areas()), old(executor.log), decision, df.attrs, now)
            case Failure(e) => outcome == Failure(e)
            case Success(eff) => outcome == Success(eff.entry) && executor.Areas() == eff.store && executor.log == eff.log
  {
    var result := Validate(contract, df);
    ValidatedRates(contract, df);
    var risk := Compute(contract, result.metrics);
    decision := Decide(risk);
    outcome := executor.Execute(decision, df.attrs, now);
  }

  /**
   * End to end: a dataset whose `tier_1` feature is entirely null, arriving
   * with its provenance, is blocked; the artifact leaves the incoming area
   * for the rejected one and one CRITICAL entry is logged.
   */
  lemma AllNullTier1Rejected(c: Contract, df: DataFrame, i: int, st: Store, log: seq<LogEntry>, now: int)
    requires 0 <= i < |Features(c)|
    requires Features(c)[i].spec.criticality == Some(Tier1)
    requires Features(c)[i].name in df.columns
    requires var cells := df.columns[Features(c)[i].name].cells;
      |cells| > 0 && forall j :: 0 <= j < |cells| ==> cells[j].None?
    requires HasSourceFile(df.attrs)
    requires df.attrs.sourceFile.value in st.incoming
    ensures var r := ExecuteSpec(st, log, Decide(Assess(c, df)), df.attrs, now);
      && r.Success?
      && df.attrs.sourceFile.value in r.value.store.rejected
      && df.attrs.sourceFile.value !in r.value.store.incoming
      && r.value.log == log + [LogEntry(now, BlockAndRollback, Critical, BlockReason, df.attrs.sourceFile.value, df.attrs.rowCount)]
  {
    AllNullTier1Blocks(c, df, i);
  }
}
