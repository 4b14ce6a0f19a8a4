/** The shape every check produces, and the guards that keep a verdict honest. */
module Contract {
  import opened Text

  datatype Status = Satisfied | NotSatisfied | NotApplicable | Unassessed | Error {
    /** Only these three can be written down as an OSCAL finding. */
    predicate EmitsFinding() {
      Satisfied? || NotSatisfied? || NotApplicable?
    }
  }

  datatype Confidence = Direct | Proxy | Partial | Attested {
    /** A lower rank is a stronger claim. */
    function Rank(): nat {
      match this
      case Direct => 0
      case Proxy => 1
      case Partial => 2
      case Attested => 3
    }

    /** The weaker of two claims. */
    function CappedBy(ceiling: Confidence): (c: Confidence)
      ensures c.Rank() >= Rank() && c.Rank() >= ceiling.Rank()
      ensures c == this || c == ceiling
    {
      if Rank() >= ceiling.Rank() then this else ceiling
    }
  }

  datatype Reason =
    | NotImplemented | OutOfScope | Unreachable | InsufficientPrivilege | InsufficientHistory
    | PartialPopulation | UnsupportedPlatform | CollectionError | RequiresAttestation
    | NoSubjectInScope | EvaluationError | RequiresInterview | RequiresExternalSystem
    | EvidenceExpired | DeferredByPolicy

  /** A verdict; `evidence` names the recorded facts that support it. */
  datatype CheckResult = CheckResult(
    status: Status,
    confidence: Option<Confidence>,
    reason: Option<Reason>,
    evidence: seq<string>)
  {
    function WithCeiling(ceiling: Confidence): (r: CheckResult)
      ensures r.status == status && r.reason == reason && r.evidence == evidence
      ensures r.confidence.None? <==> confidence.None?
      ensures confidence.Some? ==>
                r.confidence.value.Rank() == if confidence.value.Rank() >= ceiling.Rank()
                                             then confidence.value.Rank() else ceiling.Rank()
    {
      if confidence.None? then this
      else this.(confidence := Some(confidence.value.CappedBy(ceiling)))
    }
  }

  /** `CheckResult.not_applicable`, which never puts a confidence on itself. */
  function NotApplicableOn(evidence: seq<string>): CheckResult {
    CheckResult(NotApplicable, None, None, evidence)
  }

  /** `CheckResult.unassessed`. */
  function UnassessedFor(reason: Reason, evidence: seq<string>): CheckResult {
    CheckResult(Unassessed, None, Some(reason), evidence)
  }

  /** `CheckResult.error`. */
  function Failed(): CheckResult {
    CheckResult(Error, None, Some(EvaluationError), [])
  }

  /** `CheckResult.satisfied`, which refuses a verdict without evidence. */
  function SatisfiedOn(evidence: seq<string>, confidence: Confidence): (r: Result<CheckResult, string>)
    ensures r.Ok? <==> evidence != []
  {
    if evidence == [] then Err("satisfied() requires supporting facts")
    else Ok(CheckResult(Satisfied, Some(confidence), None, evidence))
  }

  /** `CheckResult.not_satisfied`, under the same rule. */
  function NotSatisfiedOn(evidence: seq<string>, confidence: Confidence): (r: Result<CheckResult, string>)
    ensures r.Ok? <==> evidence != []
  {
    if evidence == [] then Err("not_satisfied() requires supporting facts")
    else Ok(CheckResult(NotSatisfied, Some(confidence), None, evidence))
  }

  // ----- facts ----------------------------------------------------------------

  datatype Fact<+T> = Fact(value: T, partial: bool)

  /** The typed facts of one check, guarded in the order they are asked for. */
  function GuardFact<T>(fact: Option<Fact<T>>): Option<Reason> {
    if fact.None? then Some(CollectionError)
    else if fact.value.partial then Some(PartialPopulation)
    else None
  }
}
