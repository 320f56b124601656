/** Classified failures: `engine/failures.py`. */
module Failures {
  datatype Disposition = LegalDeadEnd | PathFailure | ExperimentFailure

  datatype Recovery = NoRecovery | StopPath | ReplaceWorker | AbortExperiment

  datatype FailureRecord = FailureRecord(
    category: string, disposition: Disposition, recovery: Recovery, retryable: bool, message: string)
  {
    /** What `__post_init__` accepts. */
    predicate Valid() {
      && category != ""
      && recovery in AllowedRecoveries(disposition)
      && (retryable ==> disposition == PathFailure && recovery == ReplaceWorker)
    }
  }

  function AllowedRecoveries(d: Disposition): set<Recovery> {
    match d
    case LegalDeadEnd => {NoRecovery}
    case PathFailure => {StopPath, ReplaceWorker}
    case ExperimentFailure => {AbortExperiment}
  }

  /** The exception families `classify_failure` tells apart. `Carried` already holds a record. */
  datatype Error =
    | Carried(record: FailureRecord)
    | CandidatePolicy(atRuntime: bool)
    | MultiInterruption(pathFailure: bool)
    | WorkerTimeout | WorkerCrash | CoreTimeout
    | WorkerProtocol
    | Environment
    | ReplayMismatch
    | BridgeMessage
    | OtherBridge
    | Unknown

  /** `classify_failure` without an extra context. `lifecyclePath` is the error's
      `path_failure` flag, read only for the multi-turn lifecycle category. */
  function Classify(e: Error, category: string, lifecyclePath: bool, message: string): FailureRecord {
    match e
    case Carried(record) => record
    case CandidatePolicy(atRuntime) => if atRuntime then StopThePath(category, message) else Abort(category, message)
    case MultiInterruption(pathFailure) =>
      if pathFailure then StopThePath(category, message) else Abort(category, message)
    case _ =>
      if category == "multi_turn_lifecycle" then
        if lifecyclePath then StopThePath(category, message) else Abort(category, message)
      else if e.WorkerTimeout? || e.WorkerCrash? || e.CoreTimeout? then Replace(category, true, message)
      else if e.WorkerProtocol? || e.OtherBridge? then Replace(category, false, message)
      else if e.BridgeMessage? then StopThePath(category, message)
      else Abort(category, message)
  }

  function StopThePath(category: string, message: string): FailureRecord {
    FailureRecord(category, PathFailure, StopPath, false, message)
  }

  function Replace(category: string, retryable: bool, message: string): FailureRecord {
    FailureRecord(category, PathFailure, ReplaceWorker, retryable, message)
  }

  function Abort(category: string, message: string): FailureRecord {
    FailureRecord(category, ExperimentFailure, AbortExperiment, false, message)
  }

  /** Classification always yields a record its constructor accepts, and a fresh one asks for
      a retry exactly for a timeout or a crash. */
  lemma ClassifyValid(e: Error, category: string, lifecyclePath: bool, message: string)
    requires category != ""
    requires e.Carried? ==> e.record.Valid()
    ensures Classify(e, category, lifecyclePath, message).Valid()
    ensures !e.Carried? ==> (Classify(e, category, lifecyclePath, message).retryable
      <==> (e.WorkerTimeout? || e.WorkerCrash? || e.CoreTimeout?) && category != "multi_turn_lifecycle")
  {
  }
}
