/**
 * The decision rule (`DecisionEngine.decide`): three score bands, each
 * mapped to an action name, a severity and a fixed reason.
 */
module Decisions {
  import opened Risk

  const Allow := "ALLOW"
  const AllowWithAlert := "ALLOW_WITH_ALERT"
  const BlockAndRollback := "BLOCK_AND_ROLLBACK"

  const Info := "INFO"
  const Warn := "WARN"
  const Critical := "CRITICAL"

  const BlockReason := "High risk of silent data corruption"
  const AlertReason := "Moderate data quality risk detected"
  const AllowReason := "Data within acceptable risk thresholds"

  /** Scores at or above this block the artifact. */
  const BlockThreshold: real := 0.7
  /** Scores at or above this, and below the block threshold, raise an alert. */
  const AlertThreshold: real := 0.4

  /** The decision; the strings are what the log records. */
  datatype Decision = Decision(name: string, severity: string, reason: string)

  /**
   * `decide`: reads only the (rounded) score. Each band includes its lower
   * bound, so 0.4 and 0.7 fall in the higher band.
   */
  function Decide(risk: RiskScore): (d: Decision)
    ensures d.name == BlockAndRollback <==> risk.score >= BlockThreshold
    ensures d.name == AllowWithAlert <==> AlertThreshold <= risk.score < BlockThreshold
    ensures d.name == Allow <==> risk.score < AlertThreshold
  {
    if risk.score >= BlockThreshold then
      Decision(BlockAndRollback, Critical, BlockReason)
    else if risk.score >= AlertThreshold then
      Decision(AllowWithAlert, Warn, AlertReason)
    else
      Decision(Allow, Info, AllowReason)
  }

  /** The order of severities: INFO below WARN below CRITICAL. */
  function SeverityRank(severity: string): nat {
    if severity == Critical then 2 else if severity == Warn then 1 else 0
  }

  /**
   * Every decision is one of the three rows of the table; in particular the
   * name fixes the severity and the reason.
   */
  lemma DecisionTable(risk: RiskScore)
    ensures var d := Decide(risk);
      || d == Decision(BlockAndRollback, Critical, BlockReason)
      || d == Decision(AllowWithAlert, Warn, AlertReason)
      || d == Decision(Allow, Info, AllowReason)
  {
  }

  /** Two decisions with the same name are the same decision. */
  lemma NameDeterminesDecision(r1: RiskScore, r2: RiskScore)
    ensures Decide(r1).name == Decide(r2).name <==> Decide(r1) == Decide(r2)
  {
  }

  /** The reasons attached to a score play no part: only the score does. */
  lemma DecideReadsOnlyScore(r1: RiskScore, r2: RiskScore)
    requires r1.score == r2.score
    ensures Decide(r1) == Decide(r2)
  {
  }

  /** A higher score never yields a lower severity. */
  lemma DecideMonotone(r1: RiskScore, r2: RiskScore)
    requires r1.score <= r2.score
    ensures SeverityRank(Decide(r1).severity) <= SeverityRank(Decide(r2).severity)
  {
  }

  /** The decisions at the band edges and beyond. */
  lemma BandBoundaries(reasons: seq<Reason>)
    ensures Decide(RiskScore(0.39, reasons)).name == Allow
    ensures Decide(RiskScore(0.4, reasons)).name == AllowWithAlert
    ensures Decide(RiskScore(0.69, reasons)).name == AllowWithAlert
    ensures Decide(RiskScore(0.7, reasons)).name == BlockAndRollback
    ensures Decide(RiskScore(1.5, reasons)).name == BlockAndRollback
  {
  }
}
