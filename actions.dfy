/**
 * The action executor (`ActionExecutor.execute`): checks provenance, moves
 * the artifact out of the incoming area according to the decision, then
 * appends one entry to the decision log.
 */
module Actions {
  import opened Wrappers
  import opened Frames
  import opened Decisions

  /** One line of the decision log. `now` stands for the UTC clock reading, in microseconds. */
  datatype LogEntry = LogEntry(
    timestamp: int,
    decision: string,
    severity: string,
    reason: string,
    sourceFile: string,
    rowCount: Option<int>)

  /** The two areas an artifact leaves the incoming area for. */
  datatype Area = Validated | Rejected

  /** The file names present in each storage area. */
  datatype Store = Store(incoming: set<string>, validated: set<string>, rejected: set<string>)

  function Holding(st: Store, a: Area): set<string> {
    match a
    case Validated => st.validated
    case Rejected => st.rejected
  }

  /** `_move_file`: moves the artifact into `target` when it is in the incoming area, else does nothing. */
  function Moved(st: Store, name: string, target: Area): Store {
    if name !in st.incoming then st
    else
      match target
      case Validated => Store(st.incoming - {name}, st.validated + {name}, st.rejected)
      case Rejected => Store(st.incoming - {name}, st.validated, st.rejected + {name})
  }

  /** Where a decision name sends the artifact; an unrecognised name sends it nowhere. */
  function TargetOf(decisionName: string): (t: Option<Area>)
    ensures t == Some(Validated) <==> decisionName == Allow
    ensures t == Some(Rejected) <==> decisionName == AllowWithAlert || decisionName == BlockAndRollback
  {
    if decisionName == Allow then Some(Validated)
    else if decisionName == AllowWithAlert || decisionName == BlockAndRollback then Some(Rejected)
    else None
  }

  /** The move a decision triggers. */
  function ApplyDecision(st: Store, d: Decision, name: string): Store {
    match TargetOf(d.name)
    case Some(target) => Moved(st, name, target)
    case None => st
  }

  /** The error raised when the dataset carries no source file name. */
  datatype ExecError = MissingSourceFile

  /** `source_file` is present and not empty (Python truthiness). */
  predicate HasSourceFile(attrs: Attrs) {
    attrs.sourceFile.Some? && attrs.sourceFile.value != ""
  }

  /** The log entry built from the decision and the dataset's provenance. */
  function EntryFor(d: Decision, attrs: Attrs, now: int): LogEntry
    requires HasSourceFile(attrs)
  {
    LogEntry(now, d.name, d.severity, d.reason, attrs.sourceFile.value, attrs.rowCount)
  }

  /** The storage areas and the log after a successful call, and the entry returned. */
  datatype Effect = Effect(store: Store, log: seq<LogEntry>, entry: LogEntry)

  /** What one call of `execute` does to the storage areas and the log. */
  function ExecuteSpec(st: Store, log: seq<LogEntry>, d: Decision, attrs: Attrs, now: int): Result<Effect, ExecError> {
    if !HasSourceFile(attrs) then Failure(MissingSourceFile)
    else
      var entry := EntryFor(d, attrs, now);
      Success(Effect(ApplyDecision(st, d, attrs.sourceFile.value), log + [entry], entry))
  }

  /** The storage areas and the decision log, as the executor changes them. */
  class ActionExecutor {
    var incoming: set<string>
    var validated: set<string>
    var rejected: set<string>
    var log: seq<LogEntry>

    function Areas(): Store
      reads this
    {
      Store(incoming, validated, rejected)
    }

    /** Creating the directories changes nothing that the model tracks. */
    constructor (incoming: set<string>, validated: set<string>, rejected: set<string>, log: seq<LogEntry>)
      ensures Areas() == Store(incoming, validated, rejected)
      ensures this.log == log
    {
      this.incoming := incoming;
      this.validated := validated;
      this.rejected := rejected;
      this.log := log;
    }

    /** `execute(decision, df)`, at clock reading `now`. */
    method Execute(decision: Decision, attrs: Attrs, now: int) returns (outcome: Result<LogEntry, ExecError>)
      modifies this
      ensures outcome.Failure? <==> !HasSourceFile(attrs)
      ensures outcome.Failure? ==> Areas() == old(Areas()) && log == old(log)
      ensures outcome.Success? ==>
                && outcome.value == EntryFor(decision, attrs, now)
                && log == old(log) + [outcome.value]
                && Areas() == ApplyDecision(old(Areas()), decision, attrs.sourceFile.value)
      ensures match ExecuteSpec(old(Areas()), old(log), decision, attrs, now)
              case Failure(e) => outcome == Failure(e)
              case Success(eff) => outcome == Success(eff.entry) && Areas() == eff.store && log == eff.log
    {
      var sourceFile := attrs.sourceFile;
      if sourceFile.None? || sourceFile.value == "" {
        return Failure(MissingSourceFile);
      }
      var logEntry := LogEntry(now, decision.name, decision.severity, decision.reason, sourceFile.value, attrs.rowCount);
      if decision.name == Allow {
        MoveFile(sourceFile.value, Validated);
      } else if decision.name == AllowWithAlert || decision.name == BlockAndRollback {
        MoveFile(sourceFile.value, Rejected);
      }
      log := log + [logEntry];
      return Success(logEntry);
    }

    /** `_move_file`: a no-op when the artifact is no longer in the incoming area. */
    method MoveFile(filename: string, target: Area)
      modifies this
      ensures Areas() == Moved(old(Areas()), filename, target)
      ensures log == old(log)
    {
      if filename in incoming {
        incoming := incoming - {filename};
        match target {
          case Validated => validated := validated + {filename};
          case Rejected => rejected := rejected + {filename};
        }
      }
    }
  }

  /** A move touches no file but the named one. */
  lemma MoveTouchesOnlyNamed(st: Store, name: string, target: Area, other: string)
    requires other != name
    ensures var st' := Moved(st, name, target);
      && (other in st'.incoming <==> other in st.incoming)
      && (other in st'.validated <==> other in st.validated)
      && (other in st'.rejected <==> other in st.rejected)
  {
  }

  /**
   * A move takes the artifact out of the incoming area into the target and
   * leaves the other area alone; when the artifact is not in the incoming
   * area nothing changes.
   */
  lemma MovePlacesArtifact(st: Store, name: string, target: Area)
    ensures var st' := Moved(st, name, target);
      && (name in st.incoming ==>
            && name !in st'.incoming
            && Holding(st', target) == Holding(st, target) + {name}
            && Holding(st', if target == Validated then Rejected else Validated) ==
               Holding(st, if target == Validated then Rejected else Validated))
      && (name !in st.incoming ==> st' == st)
  {
  }

  /** Moving never creates nor loses a file across the three areas. */
  lemma MoveConservesFiles(st: Store, name: string, target: Area)
    ensures var st' := Moved(st, name, target);
      st'.incoming + st'.validated + st'.rejected == st.incoming + st.validated + st.rejected
  {
  }

  /**
   * `execute` fails exactly when the source file is missing or empty, and then
   * changes nothing; otherwise it appends exactly one entry at the end of the
   * log, leaves earlier entries as they were and returns the appended entry,
   * whose fields come from the decision and the provenance.
   */
  lemma ExecuteAppendsOne(st: Store, log: seq<LogEntry>, d: Decision, attrs: Attrs, now: int)
    ensures var r := ExecuteSpec(st, log, d, attrs, now);
      && (r.Failure? <==> attrs.sourceFile.None? || attrs.sourceFile.value == "")
      && (r.Success? ==>
            && |r.value.log| == |log| + 1
            && r.value.log[..|log|] == log
            && r.value.log[|log|] == r.value.entry
            && r.value.entry.timestamp == now
            && r.value.entry.decision == d.name
            && r.value.entry.severity == d.severity
            && r.value.entry.reason == d.reason
            && Some(r.value.entry.sourceFile) == attrs.sourceFile
            && r.value.entry.rowCount == attrs.rowCount)
  {
  }

  /**
   * ALLOW sends an artifact of the incoming area to the validated area, the
   * other two names to the rejected area, and any other name nowhere.
   */
  lemma ExecuteRoutesArtifact(st: Store, log: seq<LogEntry>, d: Decision, attrs: Attrs, now: int)
    requires HasSourceFile(attrs)
    requires attrs.sourceFile.value in st.incoming
    ensures var eff := ExecuteSpec(st, log, d, attrs, now).value; var file := attrs.sourceFile.value;
      && (d.name == Allow ==> file in eff.store.validated && file !in eff.store.incoming)
      && (d.name == AllowWithAlert || d.name == BlockAndRollback ==> file in eff.store.rejected && file !in eff.store.incoming)
      && (d.name != Allow && d.name != AllowWithAlert && d.name != BlockAndRollback ==> eff.store == st)
  {
  }

  /**
   * A retry of the same call succeeds although the artifact has already
   * moved, leaves the areas as the first call left them and appends a second
   * entry that differs from the first only in its timestamp.
   */
  lemma RetryLogsDuplicate(st: Store, log: seq<LogEntry>, d: Decision, attrs: Attrs, t1: int, t2: int)
    requires HasSourceFile(attrs)
    ensures var first := ExecuteSpec(st, log, d, attrs, t1);
      && first.Success?
      && var second := ExecuteSpec(first.value.store, first.value.log, d, attrs, t2);
      && second.Success?
      && second.value.store == first.value.store
      && second.value.log == log + [first.value.entry, first.value.entry.(timestamp := t2)]
  {
    var file := attrs.sourceFile.value;
    var first := ExecuteSpec(st, log, d, attrs, t1).value;
    assert file !in first.store.incoming || TargetOf(d.name).None?;
  }
}
