/**
 * Risk scoring (`RiskEngine.compute`): a criticality-weighted sum of the
 * declared features' null rates, not clamped, rounded to two decimals, with
 * one reason per feature whose null rate is positive.
 */
module Risk {
  import opened Wrappers
  import opened Seqs
  import opened Contracts
  import opened Validator

  const Tier1 := "tier_1"
  /** The criticality assumed when a feature declares none. */
  const DefaultCriticality := "tier_2"

  /** 1.0 for `tier_1`, 0.5 for anything else, an absent criticality included. */
  function Weight(spec: FeatureSpec): (w: real)
    ensures w == 1.0 || w == 0.5
    ensures w == 1.0 <==> spec.criticality == Some(Tier1)
  {
    if spec.criticality.GetOr(DefaultCriticality) == Tier1 then 1.0 else 0.5
  }

  /** Every `<feature>.null_rate` metric holds a number (`float()` accepts it). */
  predicate RatesAreNumbers(m: Metrics) {
    forall k :: k in m && k.Stat? && k.stat == NullRate ==> m[k].Rate?
  }

  /** A feature's term of the sum: weight times null rate, nothing when the metric is absent. */
  function Contribution(f: Feature, m: Metrics): real
    requires RatesAreNumbers(m)
  {
    var key := Stat(f.name, NullRate);
    if key in m then m[key].rate * Weight(f.spec) else 0.0
  }

  /** The unrounded score: the contributions summed in contract order. */
  function RawScore(fs: seq<Feature>, m: Metrics): real
    requires RatesAreNumbers(m)
  {
    if fs == [] then 0.0 else RawScore(fs[..|fs| - 1], m) + Contribution(fs[|fs| - 1], m)
  }

  /** `round(x, 2)`, rounding half up. */
  function Round2(x: real): (r: real)
    ensures -0.005 <= r - x <= 0.005
  {
    ((x * 100.0 + 0.5).Floor as real) / 100.0
  }

  /** Rounding to two decimals never reverses an order. */
  lemma Round2Monotone(x: real, y: real)
    requires x <= y
    ensures Round2(x) <= Round2(y)
  {
    var a, b := (x * 100.0 + 0.5).Floor, (y * 100.0 + 0.5).Floor;
    assert a as real <= x * 100.0 + 0.5;
    assert y * 100.0 + 0.5 < b as real + 1.0;
    assert a <= b;
    assert Round2(x) == a as real / 100.0;
    assert Round2(y) == b as real / 100.0;
  }

  /** A value with at most two decimals is left as it is. */
  lemma Round2Exact(k: int)
    ensures Round2(k as real / 100.0) == k as real / 100.0
  {
    var x := k as real / 100.0;
    assert x * 100.0 == k as real;
    assert (x * 100.0 + 0.5).Floor == k;
  }

  /** A reason: the feature and its null rate rounded to two decimals (`"<feature>: null_rate=<rate>"`). */
  datatype Reason = NullRateReason(feature: string, rate: real)

  /** The reason a feature contributes: one when its null rate is positive. */
  function ReasonOf(m: Metrics): Feature -> Option<Reason> {
    (f: Feature) =>
      var key := Stat(f.name, NullRate);
      if key in m && m[key].Rate? && m[key].rate > 0.0 then Some(NullRateReason(f.name, Round2(m[key].rate)))
      else None
  }

  /** The stored score is the rounded one; the reasons are kept as given. */
  datatype RiskScore = RiskScore(score: real, reasons: seq<Reason>)

  /** `RiskScore(score, reasons)`: the constructor rounds the score. */
  function MakeRiskScore(raw: real, reasons: seq<Reason>): (rs: RiskScore)
    ensures -0.005 <= rs.score - raw <= 0.005
    ensures rs.reasons == reasons
  {
    RiskScore(Round2(raw), reasons)
  }

  /** What `compute` returns for the declared features `fs` and the metrics `m`. */
  function RiskOf(fs: seq<Feature>, m: Metrics): RiskScore
    requires RatesAreNumbers(m)
  {
    MakeRiskScore(RawScore(fs, m), FilterMap(fs, ReasonOf(m)))
  }

  /** `RiskEngine(contract).compute(metrics)`: one pass over the declared features. */
  method Compute(contract: Contract, metrics: Metrics) returns (risk: RiskScore)
    requires RatesAreNumbers(metrics)
    ensures risk == RiskOf(Features(contract), metrics)
  {
    var score := 0.0;
    var reasons: seq<Reason> := [];
    var features := Features(contract);
    for i := 0 to |features|
      invariant score == RawScore(features[..i], metrics)
      invariant reasons == FilterMap(features[..i], ReasonOf(metrics))
    {
      var f := features[i];
      assert features[..i + 1][..i] == features[..i];
      var weight := if f.spec.criticality.GetOr(DefaultCriticality) == Tier1 then 1.0 else 0.5;
      var nullKey := Stat(f.name, NullRate);
      if nullKey in metrics {
        var nullRate := metrics[nullKey].rate;
        score := score + nullRate * weight;
        if nullRate > 0.0 {
          reasons := reasons + [NullRateReason(f.name, Round2(nullRate))];
        }
      }
      assert reasons == FilterMap(features[..i + 1], ReasonOf(metrics));
    }
    assert features[..|features|] == features;
    risk := MakeRiskScore(score, reasons);
  }

  /** The score is additive over a split of the features. */
  lemma {:induction false} RawScoreAppend(a: seq<Feature>, b: seq<Feature>, m: Metrics)
    requires RatesAreNumbers(m)
    ensures RawScore(a + b, m) == RawScore(a, m) + RawScore(b, m)
  {
    if b == [] {
      assert a + b == a;
    } else {
      var b' := b[..|b| - 1];
      assert (a + b)[..|a + b| - 1] == a + b';
      assert (a + b)[|a + b| - 1] == b[|b| - 1];
      RawScoreAppend(a, b', m);
    }
  }

  /**
   * A feature without a `null_rate` metric (a missing column) changes neither
   * the score nor the reasons: dropping it gives the same result.
   */
  lemma AbsentMetricContributesNothing(a: seq<Feature>, f: Feature, b: seq<Feature>, m: Metrics)
    requires RatesAreNumbers(m)
    requires Stat(f.name, NullRate) !in m
    ensures RawScore(a + [f] + b, m) == RawScore(a + b, m)
    ensures FilterMap(a + [f] + b, ReasonOf(m)) == FilterMap(a + b, ReasonOf(m))
    ensures RiskOf(a + [f] + b, m) == RiskOf(a + b, m)
  {
    AbsentMetricAddsNoTerm(a, f, b, m);
    AbsentMetricAddsNoReason(a, f, b, m);
  }

  lemma AbsentMetricAddsNoTerm(a: seq<Feature>, f: Feature, b: seq<Feature>, m: Metrics)
    requires RatesAreNumbers(m)
    requires Stat(f.name, NullRate) !in m
    ensures RawScore(a + [f] + b, m) == RawScore(a + b, m)
  {
    RawScoreAppend(a + [f], b, m);
    RawScoreAppend(a, b, m);
    assert (a + [f])[..|a|] == a;
    assert RawScore(a + [f], m) == RawScore(a, m);
  }

  lemma AbsentMetricAddsNoReason(a: seq<Feature>, f: Feature, b: seq<Feature>, m: Metrics)
    requires RatesAreNumbers(m)
    requires Stat(f.name, NullRate) !in m
    ensures FilterMap(a + [f] + b, ReasonOf(m)) == FilterMap(a + b, ReasonOf(m))
  {
    FilterMapAppend(a + [f], b, ReasonOf(m));
    FilterMapAppend(a, b, ReasonOf(m));
    assert (a + [f])[..|a|] == a;
    assert ReasonOf(m)(f) == None;
    assert FilterMap(a + [f], ReasonOf(m)) == FilterMap(a, ReasonOf(m));
  }

  /** With no negative null rate the score is not negative. */
  lemma {:induction false} RawScoreNonNegative(fs: seq<Feature>, m: Metrics)
    requires RatesAreNumbers(m)
    requires forall k :: k in m && k.Stat? && k.stat == NullRate ==> m[k].rate >= 0.0
    ensures RawScore(fs, m) >= 0.0
  {
    if fs != [] {
      RawScoreNonNegative(fs[..|fs| - 1], m);
    }
  }

  /** With every null rate zero the score is zero. */
  lemma {:induction false} RawScoreZero(fs: seq<Feature>, m: Metrics)
    requires RatesAreNumbers(m)
    requires forall k :: k in m && k.Stat? && k.stat == NullRate ==> m[k].rate == 0.0
    ensures RawScore(fs, m) == 0.0
  {
    if fs != [] {
      RawScoreZero(fs[..|fs| - 1], m);
    }
  }

  /**
   * With no negative null rate, one declared feature's weighted null rate is
   * a lower bound of the score.
   */
  lemma {:induction false} RawScoreAtLeastOneTerm(fs: seq<Feature>, m: Metrics, i: int)
    requires RatesAreNumbers(m)
    requires forall k :: k in m && k.Stat? && k.stat == NullRate ==> m[k].rate >= 0.0
    requires 0 <= i < |fs|
    ensures RawScore(fs, m) >= Contribution(fs[i], m)
  {
    var n := |fs| - 1;
    if i == n {
      RawScoreNonNegative(fs[..n], m);
    } else {
      RawScoreAtLeastOneTerm(fs[..n], m, i);
    }
  }

  /**
   * Raising null rates never lowers the score: if `m2` has the same
   * `null_rate` keys as `m1` with values at least as large, its score is at
   * least as large.
   */
  lemma {:induction false} RawScoreMonotone(fs: seq<Feature>, m1: Metrics, m2: Metrics)
    requires RatesAreNumbers(m1) && RatesAreNumbers(m2)
    requires forall name :: Stat(name, NullRate) in m1 <==> Stat(name, NullRate) in m2
    requires forall name :: Stat(name, NullRate) in m1 ==> m1[Stat(name, NullRate)].rate <= m2[Stat(name, NullRate)].rate
    ensures RawScore(fs, m1) <= RawScore(fs, m2)
  {
    if fs != [] {
      RawScoreMonotone(fs[..|fs| - 1], m1, m2);
      var f := fs[|fs| - 1];
      if Stat(f.name, NullRate) in m1 {
        var w := Weight(f.spec);
        assert m1[Stat(f.name, NullRate)].rate * w <= m2[Stat(f.name, NullRate)].rate * w;
      }
    }
  }

  /**
   * The reasons are exactly the features whose null rate is positive, each
   * with its rate rounded, in contract order and one per such feature.
   */
  lemma ReasonsExact(fs: seq<Feature>, m: Metrics)
    requires RatesAreNumbers(m)
    ensures var rs := RiskOf(fs, m).reasons; var pos := Selected(fs, ReasonOf(m));
      && |rs| == |pos|
      && (forall k :: 0 <= k < |rs| ==>
            0 <= pos[k] < |fs| &&
            var f := fs[pos[k]]; var key := Stat(f.name, NullRate);
            && key in m && m[key].rate > 0.0
            && rs[k] == NullRateReason(f.name, Round2(m[key].rate)))
      && (forall k, l :: 0 <= k < l < |rs| ==> pos[k] < pos[l])
      && (forall i :: 0 <= i < |fs| && Stat(fs[i].name, NullRate) in m && m[Stat(fs[i].name, NullRate)].rate > 0.0 ==> i in pos)
  {
    FilterMapSelects(fs, ReasonOf(m));
  }

  /**
   * The score is not clamped: two fully null `tier_1` features give 2.0.
   */
  lemma ScoreNotClamped(a: string, b: string, spec: FeatureSpec)
    requires a != b
    requires spec.criticality == Some(Tier1)
    ensures var fs := [Feature(a, spec), Feature(b, spec)];
      var m := map[Stat(a, NullRate) := Rate(1.0), Stat(b, NullRate) := Rate(1.0)];
      RiskOf(fs, m).score == 2.0
  {
    var fs := [Feature(a, spec), Feature(b, spec)];
    var m := map[Stat(a, NullRate) := Rate(1.0), Stat(b, NullRate) := Rate(1.0)];
    assert fs[..1] == [Feature(a, spec)];
    assert fs[..1][..0] == [];
    assert Contribution(fs[0], m) == 1.0;
    assert Contribution(fs[1], m) == 1.0;
    assert RawScore(fs[..1], m) == 1.0;
    assert RawScore(fs, m) == 2.0;
    Round2Exact(200);
  }
}
