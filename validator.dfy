/**
 * Column validation against the contract (`DataValidator.validate`): per
 * feature metrics for the declared columns that exist, a `missing_column`
 * violation for those that do not, and the row count.
 */
module Validator {
  import opened Wrappers
  import opened Seqs
  import opened Contracts
  import opened Frames

  /** The statistics recorded for a present feature. */
  datatype Statistic = NullRate | Dtype | Min | Max | DuplicateRatio

  function StatName(s: Statistic): string {
    match s
    case NullRate => "null_rate"
    case Dtype => "dtype"
    case Min => "min"
    case Max => "max"
    case DuplicateRatio => "duplicate_ratio"
  }

  /**
   * A metric key: the literal `row_count`, or `<feature>.<statistic>`.
   * KeyTextInjective shows the string spelling is one-to-one, so keeping the
   * key structured loses nothing.
   */
  datatype MetricKey = RowCount | Stat(feature: string, stat: Statistic)

  function KeyText(k: MetricKey): string {
    match k
    case RowCount => "row_count"
    case Stat(f, s) => f + "." + StatName(s)
  }

  /** No statistic name contains a '.', and distinct statistics have distinct names. */
  lemma StatNames(s1: Statistic, s2: Statistic)
    ensures '.' !in StatName(s1)
    ensures StatName(s1) == StatName(s2) ==> s1 == s2
  {
  }

  /** In `f + "." + n` with no '.' in `n`, the '.' right after `f` is the last one. */
  lemma DotAfterFeature(f: string, n: string)
    requires '.' !in n
    ensures var t := f + "." + n;
      && t[|f|] == '.'
      && forall j :: |f| < j < |t| ==> t[j] != '.'
  {
    var t := f + "." + n;
    assert forall j :: |f| < j < |t| ==> t[j] == n[j - |f| - 1];
  }

  /**
   * A string `f + "." + n` with no '.' in `n` splits only one way: the last
   * '.' ends `f`.
   */
  lemma SplitAtLastDot(f1: string, n1: string, f2: string, n2: string)
    requires '.' !in n1 && '.' !in n2
    requires f1 + "." + n1 == f2 + "." + n2
    ensures f1 == f2 && n1 == n2
  {
    var t := f1 + "." + n1;
    DotAfterFeature(f1, n1);
    DotAfterFeature(f2, n2);
    assert |f1| == |f2|;
    assert f1 == t[..|f1|] == f2;
    assert n1 == t[|f1| + 1..] == n2;
  }

  /** Distinct keys are spelled differently. */
  lemma KeyTextInjective(k1: MetricKey, k2: MetricKey)
    requires KeyText(k1) == KeyText(k2)
    ensures k1 == k2
  {
    if k1.Stat? {
      StatNames(k1.stat, k1.stat);
      DotAfterFeature(k1.feature, StatName(k1.stat));
    }
    if k2.Stat? {
      StatNames(k2.stat, k2.stat);
      DotAfterFeature(k2.feature, StatName(k2.stat));
    }
    if k1.Stat? && k2.Stat? {
      StatNames(k1.stat, k2.stat);
      SplitAtLastDot(k1.feature, StatName(k1.stat), k2.feature, StatName(k2.stat));
    }
  }

  /** Metric values: a rate, a type tag, a column extreme (None is NaN), a 0/1 flag, a count. */
  datatype MetricValue = Rate(rate: real) | Tag(tag: string) | Extreme(extreme: Option<int>) | Flag(flag: int) | Count(count: nat)

  type Metrics = map<MetricKey, MetricValue>

  datatype ViolationKind = MissingColumn

  datatype Violation = Violation(feature: string, kind: ViolationKind)

  datatype ValidationResult = ValidationResult(metrics: Metrics, violations: seq<Violation>)

  /** Whether a present feature with this declaration gets statistic `s`. */
  predicate Records(spec: FeatureSpec, s: Statistic) {
    match s
    case NullRate => true
    case Dtype => true
    case Min => spec.constraints.declaresMin
    case Max => spec.constraints.declaresMax
    case DuplicateRatio => spec.constraints.unique
  }

  /** The value of statistic `s` on a column; the duplicate ratio is the coarse 1 - is_unique. */
  function StatValue(s: Statistic, col: Column): MetricValue {
    match s
    case NullRate => Rate(NullFraction(col.cells))
    case Dtype => Tag(col.dtype)
    case Min => Extreme(ColumnMin(col.cells))
    case Max => Extreme(ColumnMax(col.cells))
    case DuplicateRatio => Flag(1 - if AllDistinct(col.cells) then 1 else 0)
  }

  /**
   * Records the statistics of one present feature into `m`, in the order the
   * validator writes them.
   */
  function RecordFeature(m: Metrics, f: Feature, col: Column): Metrics {
    var m1 := m[Stat(f.name, NullRate) := StatValue(NullRate, col)][Stat(f.name, Dtype) := StatValue(Dtype, col)];
    var m2 := if f.spec.constraints.declaresMin then m1[Stat(f.name, Min) := StatValue(Min, col)] else m1;
    var m3 := if f.spec.constraints.declaresMax then m2[Stat(f.name, Max) := StatValue(Max, col)] else m2;
    if f.spec.constraints.unique then m3[Stat(f.name, DuplicateRatio) := StatValue(DuplicateRatio, col)] else m3
  }

  /**
   * Recording a feature adds exactly the keys `<f>.<s>` its declaration asks
   * for, with the column's statistics, and leaves every other key as it was.
   */
  lemma RecordFeatureKeys(m: Metrics, f: Feature, col: Column, k: MetricKey)
    ensures k in RecordFeature(m, f, col) <==> k in m || (k.Stat? && k.feature == f.name && Records(f.spec, k.stat))
    ensures k.Stat? && k.feature == f.name && Records(f.spec, k.stat) ==> RecordFeature(m, f, col)[k] == StatValue(k.stat, col)
    ensures !(k.Stat? && k.feature == f.name) && k in m ==> RecordFeature(m, f, col)[k] == m[k]
  {
    if k.Stat? && k.feature == f.name {
      match k.stat
      case NullRate =>
      case Dtype =>
      case Min =>
      case Max =>
      case DuplicateRatio =>
    }
  }

  /** The metrics of the features of `fs` that have a column, later features overwriting earlier. */
  function MetricsOf(fs: seq<Feature>, df: DataFrame): Metrics {
    if fs == [] then map[]
    else
      var f := fs[|fs| - 1];
      var m := MetricsOf(fs[..|fs| - 1], df);
      if f.name in df.columns then RecordFeature(m, f, df.columns[f.name]) else m
  }

  /** The violation a feature raises: `missing_column` when the dataset has no such column. */
  function MissingOf(df: DataFrame): Feature -> Option<Violation> {
    (f: Feature) => if f.name in df.columns then None else Some(Violation(f.name, MissingColumn))
  }

  /** What validation produces: the features' metrics plus `row_count`, and the violations in contract order. */
  function ValidateSpec(c: Contract, df: DataFrame): ValidationResult {
    var fs := Features(c);
    ValidationResult(MetricsOf(fs, df)[RowCount := Count(df.rows)], FilterMap(fs, MissingOf(df)))
  }

  /** `DataValidator.validate`: one pass over the declared features in contract order. */
  method Validate(contract: Contract, df: DataFrame) returns (result: ValidationResult)
    ensures result == ValidateSpec(contract, df)
    ensures RowCount in result.metrics && result.metrics[RowCount] == Count(df.rows)
  {
    var metrics: Metrics := map[];
    var violations: seq<Violation> := [];
    var features := Features(contract);
    for i := 0 to |features|
      invariant metrics == MetricsOf(features[..i], df)
      invariant violations == FilterMap(features[..i], MissingOf(df))
    {
      var f := features[i];
      assert features[..i + 1][..i] == features[..i];
      if f.name !in df.columns {
        violations := violations + [Violation(f.name, MissingColumn)];
        assert violations == FilterMap(features[..i + 1], MissingOf(df));
        continue;
      }
      assert MissingOf(df)(f) == None;
      assert FilterMap(features[..i + 1], MissingOf(df)) == violations;
      var series := df.columns[f.name];
      assert MetricsOf(features[..i + 1], df) == RecordFeature(metrics, f, series);
      ghost var before := metrics;
      metrics := metrics[Stat(f.name, NullRate) := Rate(NullFraction(series.cells))];
      metrics := metrics[Stat(f.name, Dtype) := Tag(series.dtype)];
      if f.spec.constraints.declaresMin {
        metrics := metrics[Stat(f.name, Min) := Extreme(ColumnMin(series.cells))];
      }
      if f.spec.constraints.declaresMax {
        metrics := metrics[Stat(f.name, Max) := Extreme(ColumnMax(series.cells))];
      }
      if f.spec.constraints.unique {
        var duplicateRatio := 1 - if AllDistinct(series.cells) then 1 else 0;
        metrics := metrics[Stat(f.name, DuplicateRatio) := Flag(duplicateRatio)];
      }
      assert metrics == RecordFeature(before, f, series);
    }
    assert features[..|features|] == features;
    metrics := metrics[RowCount := Count(df.rows)];
    result := ValidationResult(metrics, violations);
  }

  /**
   * The metrics of a run of features: a key `<f>.<s>` is present exactly when
   * `f` is a declared feature whose column exists and whose declaration asks
   * for `s`, and its value is that statistic of the column.
   */
  lemma {:induction false} MetricsOfKeys(fs: seq<Feature>, df: DataFrame, k: MetricKey)
    ensures k in MetricsOf(fs, df) <==>
              k.Stat? && k.feature in df.columns &&
              exists i :: 0 <= i < |fs| && fs[i].name == k.feature && Records(fs[i].spec, k.stat)
    ensures k in MetricsOf(fs, df) ==> MetricsOf(fs, df)[k] == StatValue(k.stat, df.columns[k.feature])
  {
    if fs != [] {
      var n := |fs| - 1;
      var p := fs[..n];
      MetricsOfKeys(p, df, k);
      assert forall i :: 0 <= i < n ==> p[i] == fs[i];
      if fs[n].name in df.columns {
        RecordFeatureKeys(MetricsOf(p, df), fs[n], df.columns[fs[n].name], k);
      }
    }
  }

  /**
   * Every metric key of a validation result: `row_count`, holding the number
   * of rows, and the statistics of the declared features that have a column.
   */
  lemma ValidateMetricsExact(c: Contract, df: DataFrame, k: MetricKey)
    ensures var r := ValidateSpec(c, df);
      && (k in r.metrics <==>
           k == RowCount ||
           (k.Stat? && k.feature in df.columns &&
            exists i :: 0 <= i < |Features(c)| && Features(c)[i].name == k.feature && Records(Features(c)[i].spec, k.stat)))
      && (k == RowCount ==> r.metrics[k] == Count(df.rows))
      && (k in r.metrics && k.Stat? ==> r.metrics[k] == StatValue(k.stat, df.columns[k.feature]))
  {
    MetricsOfKeys(Features(c), df, k);
  }

  /**
   * A declared feature without a column raises a `missing_column` violation
   * (exactly one when names are distinct) and gets no `<feature>.*` metric.
   */
  lemma MissingFeature(c: Contract, df: DataFrame, i: int)
    requires 0 <= i < |Features(c)|
    requires Features(c)[i].name !in df.columns
    ensures var r := ValidateSpec(c, df); var name := Features(c)[i].name;
      && Violation(name, MissingColumn) in r.violations
      && (forall s :: Stat(name, s) !in r.metrics)
      && (DistinctNames(Features(c)) ==>
            forall k, l ::
              (0 <= k < |r.violations| && 0 <= l < |r.violations| &&
               r.violations[k].feature == name && r.violations[l].feature == name) ==> k == l)
  {
    var fs := Features(c);
    var name := fs[i].name;
    var r := ValidateSpec(c, df);
    FilterMapMember(fs, MissingOf(df), Violation(name, MissingColumn));
    forall s | true ensures Stat(name, s) !in r.metrics {
      MetricsOfKeys(fs, df, Stat(name, s));
    }
    if DistinctNames(fs) {
      FilterMapSelects(fs, MissingOf(df));
      var pos := Selected(fs, MissingOf(df));
      forall k, l |
          && 0 <= k < |r.violations| && 0 <= l < |r.violations|
          && r.violations[k].feature == name && r.violations[l].feature == name
        ensures k == l
      {
        assert fs[pos[k]].name == name == fs[pos[l]].name;
        assert pos[k] == pos[l];
      }
    }
  }

  /**
   * A declared feature with a column always gets `null_rate`, the fraction of
   * its missing cells (between 0 and 1), and `dtype`, its storage tag.
   */
  lemma PresentFeature(c: Contract, df: DataFrame, i: int)
    requires 0 <= i < |Features(c)|
    requires Features(c)[i].name in df.columns
    ensures var r := ValidateSpec(c, df); var name := Features(c)[i].name; var col := df.columns[name];
      && Stat(name, NullRate) in r.metrics
      && r.metrics[Stat(name, NullRate)] == Rate(NullFraction(col.cells))
      && 0.0 <= r.metrics[Stat(name, NullRate)].rate <= 1.0
      && Stat(name, Dtype) in r.metrics
      && r.metrics[Stat(name, Dtype)] == Tag(col.dtype)
  {
    var name := Features(c)[i].name;
    MetricsOfKeys(Features(c), df, Stat(name, NullRate));
    MetricsOfKeys(Features(c), df, Stat(name, Dtype));
  }

  /**
   * `<feature>.min` is recorded exactly when the column exists and `min` is a
   * constraint key (likewise `max`); the value is the column's extreme, and the
   * declared bound plays no part.
   */
  lemma BoundsIffDeclared(c: Contract, df: DataFrame, i: int)
    requires 0 <= i < |Features(c)|
    requires DistinctNames(Features(c))
    ensures var r := ValidateSpec(c, df); var f := Features(c)[i];
      && (Stat(f.name, Min) in r.metrics <==> f.name in df.columns && f.spec.constraints.declaresMin)
      && (Stat(f.name, Max) in r.metrics <==> f.name in df.columns && f.spec.constraints.declaresMax)
      && (Stat(f.name, Min) in r.metrics ==> r.metrics[Stat(f.name, Min)] == Extreme(ColumnMin(df.columns[f.name].cells)))
      && (Stat(f.name, Max) in r.metrics ==> r.metrics[Stat(f.name, Max)] == Extreme(ColumnMax(df.columns[f.name].cells)))
  {
    var f := Features(c)[i];
    MetricsOfKeys(Features(c), df, Stat(f.name, Min));
    MetricsOfKeys(Features(c), df, Stat(f.name, Max));
  }

  /**
   * `<feature>.duplicate_ratio` is recorded exactly when the column exists and
   * `unique` is declared truthy; it is 0 or 1, and 0 exactly when no two cells
   * of the column are equal.
   */
  lemma DuplicateRatioCoarse(c: Contract, df: DataFrame, i: int)
    requires 0 <= i < |Features(c)|
    requires DistinctNames(Features(c))
    ensures var r := ValidateSpec(c, df); var f := Features(c)[i]; var key := Stat(f.name, DuplicateRatio);
      && (key in r.metrics <==> f.name in df.columns && f.spec.constraints.unique)
      && (key in r.metrics ==>
            var cells := df.columns[f.name].cells;
            && r.metrics[key].Flag?
            && (r.metrics[key].flag == 0 || r.metrics[key].flag == 1)
            && (r.metrics[key].flag == 0 <==> forall a, b :: 0 <= a < b < |cells| ==> cells[a] != cells[b]))
  {
    var f := Features(c)[i];
    MetricsOfKeys(Features(c), df, Stat(f.name, DuplicateRatio));
  }

  /**
   * The violations name the declared features without a column, in contract
   * order: the k-th violation comes from the k-th such feature, the source
   * positions increase, and there is one violation per such feature.
   */
  lemma ViolationsInContractOrder(c: Contract, df: DataFrame)
    ensures var fs := Features(c); var v := ValidateSpec(c, df).violations; var pos := Selected(fs, MissingOf(df));
      && |v| == |pos| == |set i | 0 <= i < |fs| && fs[i].name !in df.columns|
      && (forall k :: 0 <= k < |v| ==>
            0 <= pos[k] < |fs| && fs[pos[k]].name !in df.columns && v[k] == Violation(fs[pos[k]].name, MissingColumn))
      && (forall k, l :: 0 <= k < l < |v| ==> pos[k] < pos[l])
      && (forall i :: 0 <= i < |fs| && fs[i].name !in df.columns ==> i in pos)
  {
    var fs := Features(c);
    FilterMapSelects(fs, MissingOf(df));
    FilterMapCount(fs, MissingOf(df));
    var selected := SelectedPositions(fs, MissingOf(df));
    var missing := set i | 0 <= i < |fs| && fs[i].name !in df.columns;
    assert selected == missing;
    assert ValidateSpec(c, df).violations == FilterMap(fs, MissingOf(df));
    assert |FilterMap(fs, MissingOf(df))| == |selected|;
  }

  /** A declared feature without a column leaves the metrics as if it were not declared. */
  lemma {:induction false} MissingFeatureAddsNoMetric(a: seq<Feature>, f: Feature, b: seq<Feature>, df: DataFrame)
    requires f.name !in df.columns
    ensures MetricsOf(a + [f] + b, df) == MetricsOf(a + b, df)
  {
    if b == [] {
      assert a + [f] + b == a + [f];
      assert (a + [f])[..|a|] == a;
      assert a + b == a;
    } else {
      var n := |b| - 1;
      var b' := b[..n];
      MissingFeatureAddsNoMetric(a, f, b', df);
      assert (a + [f] + b)[..|a + [f] + b| - 1] == a + [f] + b';
      assert (a + [f] + b)[|a + [f] + b| - 1] == b[n];
      assert (a + b)[..|a + b| - 1] == a + b';
      assert (a + b)[|a + b| - 1] == b[n];
    }
  }

  /** A contract without a `features` key yields no violations and only `row_count`. */
  lemma EmptyContract(df: DataFrame)
    ensures ValidateSpec(Contract(None), df) == ValidationResult(map[RowCount := Count(df.rows)], [])
  {
  }
}
