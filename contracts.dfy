/**
 * The data contract: the declared features, in the order the contract
 * document lists them, each with its type, criticality tier and constraints.
 */
module Contracts {
  import opened Wrappers

  /**
   * The constraint keys a feature declares. For `min` and `max` only the
   * presence of the key matters (its value is never read); `unique` is taken
   * by its truthiness.
   */
  datatype Constraints = Constraints(declaresMin: bool, declaresMax: bool, unique: bool)

  /**
   * One feature's declaration. The declared type is read by the validator
   * but never compared with anything; an absent criticality means `tier_2`.
   */
  datatype FeatureSpec = FeatureSpec(declaredType: Option<string>, criticality: Option<string>, constraints: Constraints)

  datatype Feature = Feature(name: string, spec: FeatureSpec)

  /** A contract document; `features` is None when the key is absent. */
  datatype Contract = Contract(features: Option<seq<Feature>>)

  /** Feature names are keys of a mapping in the contract document, hence distinct. */
  predicate DistinctNames(fs: seq<Feature>) {
    forall i, j :: 0 <= i < j < |fs| ==> fs[i].name != fs[j].name
  }

  /** The declared features in contract order; none when the key is absent. */
  function Features(c: Contract): (fs: seq<Feature>)
    ensures c.features.None? ==> fs == []
    ensures c.features.Some? ==> fs == c.features.value
  {
    c.features.GetOr([])
  }
}
